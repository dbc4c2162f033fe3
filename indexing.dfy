/** Where element (x, y) of a width-by-height matrix lives in its buffer.

    The model fixes one convention: the buffer holds `width` consecutive
    blocks of `height` elements; x selects the block and y the element in
    it, so (x, y) lives at offset x * height + y. The checked and the
    unchecked accessor both use `Offset`, so they always agree. */
module Indexing {

  /** (x, y) is a coordinate of a width-by-height matrix. */
  predicate InRange(width: int, height: int, x: int, y: int)
  {
    0 <= x < width && 0 <= y < height
  }

  /** The buffer offset of element (x, y) in a matrix of the given height. */
  function Offset(height: int, x: int, y: int): int
  {
    x * height + y
  }

  /** a <= b scales by a non-negative factor. */
  lemma MulMonotone(a: int, b: int, c: int)
    requires a <= b && 0 <= c
    ensures a * c <= b * c
  {
    assert b * c - a * c == (b - a) * c;
  }

  /** Every coordinate in range lands inside a buffer of width * height elements. */
  lemma OffsetInBounds(width: int, height: int, x: int, y: int)
    requires InRange(width, height, x, y)
    ensures 0 <= Offset(height, x, y) < width * height
  {
    MulMonotone(0, x, height);
    MulMonotone(x + 1, width, height);
    assert (x + 1) * height == x * height + height;
  }

  /** Distinct coordinates in range never share an offset. */
  lemma OffsetInjective(width: int, height: int, x1: int, y1: int, x2: int, y2: int)
    requires InRange(width, height, x1, y1) && InRange(width, height, x2, y2)
    requires Offset(height, x1, y1) == Offset(height, x2, y2)
    ensures x1 == x2 && y1 == y2
  {
    if x1 < x2 {
      MulMonotone(x1 + 1, x2, height);
    } else if x2 < x1 {
      MulMonotone(x2 + 1, x1, height);
    }
  }

  /** Every offset of the buffer belongs to some coordinate in range, so
      `Offset` is a bijection from the coordinates onto [0, width * height). */
  lemma OffsetOnto(width: int, height: int, k: int)
    requires 0 <= width && 0 <= height
    requires 0 <= k < width * height
    ensures height > 0
    ensures InRange(width, height, k / height, k % height)
    ensures Offset(height, k / height, k % height) == k
  {
    if height == 0 {
      assert false;
    }
    var x, y := k / height, k % height;
    assert k == x * height + y;
    if x >= width {
      MulMonotone(width, x, height);
      assert false;
    }
  }

  // The offset as the source computes it, `width * x + y`.

  /** The buffer offset the source's accessors compute for (x, y). */
  function SourceOffset(width: int, x: int, y: int): int
  {
    width * x + y
  }

  /** For a square matrix the source's offset is the model's. */
  lemma SourceOffsetSquare(n: int, x: int, y: int)
    ensures SourceOffset(n, x, y) == Offset(n, x, y)
  {
  }

  /** In a 3-by-2 matrix the coordinate (2, 1) is in range, yet the source's
      offset 7 lies past the end of the 6-element buffer. */
  lemma SourceOffsetEscapesBuffer()
    ensures InRange(3, 2, 2, 1)
    ensures SourceOffset(3, 2, 1) == 7 >= 3 * 2
  {
  }

  /** In a 2-by-3 matrix the distinct coordinates (0, 2) and (1, 0) share
      the source's offset 2, so writing one overwrites the other. */
  lemma SourceOffsetCollides()
    ensures InRange(2, 3, 0, 2) && InRange(2, 3, 1, 0)
    ensures SourceOffset(2, 0, 2) == SourceOffset(2, 1, 0) == 2
  {
  }
}
