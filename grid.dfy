/**
 * Row-major indexing of a width-by-height grid, shared by every loop of
 * the host program that walks an image row by row.
 */
module Grid {

  lemma MulMonotone(a: int, c: int, b: int)
    requires a <= c && b >= 0
    ensures a * b <= c * b
  {
    assert c * b - a * b == (c - a) * b;
  }

  lemma MulSucc(y: int, width: int)
    ensures (y + 1) * width == y * width + width
  {
  }

  /** Cell (i, j) of a width-by-height grid has a row-major index inside the grid. */
  lemma RowMajorInBounds(i: int, j: int, width: int, height: int)
    requires 0 <= i < height && 0 <= j < width
    ensures 0 <= i * width + j < width * height
  {
    MulSucc(i, width);
    MulMonotone(0, i, width);
    MulMonotone(i + 1, height, width);
  }

  /**
   * Index i*width + j of a cell has row i and column j, so distinct cells
   * get distinct indices.
   */
  lemma RowMajorIndex(i: int, j: int, width: int, height: int)
    requires 0 <= i < height && 0 <= j < width
    ensures 0 <= i * width + j < width * height
    ensures (i * width + j) / width == i
    ensures (i * width + j) % width == j
  {
    RowMajorInBounds(i, j, width, height);
    var k := i * width + j;
    var t, r := k / width, k % width;
    assert k == t * width + r && 0 <= r < width;
    if t < i {
      MulMonotone(t + 1, i, width);
      MulSucc(t, width);
    } else if t > i {
      MulMonotone(i + 1, t, width);
      MulSucc(i, width);
    }
  }

  /**
   * Every index below width*height is the row-major index of a cell: row
   * k / width and column k % width, both inside the grid. With
   * RowMajorIndex, row-major indexing is a bijection between the cells and
   * the indices below width*height.
   */
  lemma RowMajorCovers(k: int, width: int, height: int)
    requires width >= 0 && height >= 0 && 0 <= k < width * height
    ensures width > 0
    ensures 0 <= k / width < height && 0 <= k % width < width
    ensures k == (k / width) * width + k % width
  {
    assert width != 0;
    var i := k / width;
    if i >= height {
      MulMonotone(height, i, width);
    }
  }

  /** A grid without columns has no cells. */
  lemma NoColumnsNoCells(width: int, height: int)
    requires width >= 0 && height >= 0
    ensures width > 0 || width * height == 0
  {
  }

  /** The rows below y cover exactly the indices below y*width. */
  lemma RowsBelow(y: int, width: int, height: int)
    requires 0 <= y <= height && width >= 0
    ensures 0 <= y * width <= width * height
    ensures (y + 1) * width == y * width + width
  {
    MulSucc(y, width);
    MulMonotone(0, y, width);
    MulMonotone(y, height, width);
  }
}
