/**
 * convertToPLY: back-projection of a disparity field into camera-space
 * points, written as a PLY file whose three colour values are the
 * disparity itself. The function has no guard against a zero disparity
 * (its `d <= 0` test is commented out), so a zero disparity divides by
 * zero; here that is a precondition.
 */
module BackProjection {
  import opened Grid
  import opened Ply

  /**
   * The point for pixel (i, j) with disparity d, focal length f and
   * baseline b: Z = f*b/d, X = -b*(2j + d)/(2d), Y = b*i/d, and all three
   * colour values d. Equivalently Z*d = f*b, Y*d = b*i and X is -b/2
   * shifted by -b*j/d.
   */
  function BackProject(i: int, j: int, d: real, focal: int, baseline: int): (v: Vertex)
    requires d != 0.0
    ensures v.z * d == (focal * baseline) as real
    ensures v.y * d == (baseline * i) as real
    ensures v.x == -(baseline as real) / 2.0 - (baseline * j) as real / d
    ensures v.red == d && v.green == d && v.blue == d
  {
    var z := (focal * baseline) as real / d;
    var x := -(baseline as real) * (2.0 * j as real + d) / (2.0 * d);
    var y := (baseline * i) as real / d;
    assert x == -(baseline as real) / 2.0 - (baseline * j) as real / d by {
      var br, jr := baseline as real, j as real;
      assert -br * (2.0 * jr + d) == -br * 2.0 * jr + -br * d;
      assert (-br * 2.0 * jr) / (2.0 * d) == -(br * jr) / d;
      assert (-br * d) / (2.0 * d) == -br / 2.0;
      assert (baseline * j) as real == br * jr;
    }
    Vertex(x, y, z, d, d, d)
  }

  /** With positive focal length and baseline, a larger positive disparity is nearer. */
  lemma DepthDecreasesWithDisparity(i: int, j: int, d1: real, d2: real, focal: int, baseline: int)
    requires 0.0 < d1 < d2 && focal > 0 && baseline > 0
    ensures BackProject(i, j, d2, focal, baseline).z < BackProject(i, j, d1, focal, baseline).z
  {
    var fb := (focal * baseline) as real;
    var z1, z2 := BackProject(i, j, d1, focal, baseline).z, BackProject(i, j, d2, focal, baseline).z;
    assert fb > 0.0 by {
      assert focal * baseline > 0;
    }
    assert z1 * d1 == fb && z2 * d2 == fb;
    assert z1 > 0.0 && z2 > 0.0;
    assert z2 * d1 < z2 * d2;
  }

  /** The points for the first `count` entries of the field, row-major for a row of `width`. */
  function ProjectedVertices(disparity: seq<real>, width: int, count: nat, focal: int, baseline: int): (vs: seq<Vertex>)
    requires count <= |disparity| && (width > 0 || count == 0)
    requires forall k :: 0 <= k < count ==> disparity[k] != 0.0
  {
    seq(count, k requires 0 <= k < count => BackProject(k / width, k % width, disparity[k], focal, baseline))
  }

  lemma ProjectedVerticesSnoc(disparity: seq<real>, width: int, count: nat, focal: int, baseline: int)
    requires count + 1 <= |disparity| && width > 0
    requires forall k :: 0 <= k < count + 1 ==> disparity[k] != 0.0
    ensures ProjectedVertices(disparity, width, count + 1, focal, baseline)
      == ProjectedVertices(disparity, width, count, focal, baseline)
         + [BackProject(count / width, count % width, disparity[count], focal, baseline)]
  {
    var l := ProjectedVertices(disparity, width, count + 1, focal, baseline);
    var r := ProjectedVertices(disparity, width, count, focal, baseline)
             + [BackProject(count / width, count % width, disparity[count], focal, baseline)];
    assert |l| == |r|;
    forall k | 0 <= k < |l| ensures l[k] == r[k] {
    }
  }

  /** The point of pixel (i, j) is line i*width + j and back-projects disparity[i*width + j]. */
  lemma PointOfPixel(disparity: seq<real>, width: int, height: int, i: int, j: int,
                       focal: int, baseline: int)
    requires 0 <= i < height && 0 <= j < width
    requires width * height <= |disparity|
    requires forall k :: 0 <= k < width * height ==> disparity[k] != 0.0
    ensures 0 <= i * width + j < width * height
    ensures ProjectedVertices(disparity, width, width * height, focal, baseline)[i * width + j]
      == BackProject(i, j, disparity[i * width + j], focal, baseline)
  {
    RowMajorIndex(i, j, width, height);
  }

  /**
   * convertToPLY over a width-by-height field: the header announces
   * width*height vertices and line i*width + j is the back-projection of
   * pixel (i, j). Only the first width*height entries are read and each
   * must be non-zero.
   */
  method ConvertToPly(disparity: seq<real>, width: int, height: int, focal: int, baseline: int)
      returns (file: PlyFile)
    requires width >= 0 && height >= 0
    requires width * height <= |disparity|
    requires forall k :: 0 <= k < width * height ==> disparity[k] != 0.0
    ensures file.header == PlyHeader(width * height)
    ensures Consistent(file)
    ensures (NoColumnsNoCells(width, height);
             file.vertices == ProjectedVertices(disparity, width, width * height, focal, baseline))
  {
    var header := PlyHeader(width * height);
    var lines: seq<Vertex> := [];
    NoColumnsNoCells(width, height);
    var i := 0;
    ghost var rowStart := 0;
    while i < height
      invariant 0 <= i <= height
      invariant rowStart == i * width && 0 <= rowStart <= width * height
      invariant width > 0 || rowStart == 0
      invariant lines == ProjectedVertices(disparity, width, rowStart, focal, baseline)
    {
      RowsBelow(i, width, height);
      var j := 0;
      while j < width
        invariant 0 <= j <= width
        invariant rowStart + j <= width * height
        invariant lines == ProjectedVertices(disparity, width, rowStart + j, focal, baseline)
      {
        RowMajorIndex(i, j, width, height);
        var idx := i * width + j;
        assert idx == rowStart + j;
        var d := disparity[idx];
        assert idx / width == i && idx % width == j;
        ProjectedVerticesSnoc(disparity, width, idx, focal, baseline);
        lines := lines + [BackProject(i, j, d, focal, baseline)];
        j := j + 1;
      }
      RowsBelow(i + 1, width, height);
      i, rowStart := i + 1, rowStart + width;
    }
    assert rowStart == width * height;
    file := PlyFile(header, lines);
  }
}
