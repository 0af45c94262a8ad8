/**
 * The PLY point-cloud output of the host program: the fixed header, the
 * colour banding by disparity and the writer loop that turns the
 * point-cloud buffer (four floats X, Y, Z, d per pixel) into one vertex
 * line per pixel, in row-major order. Text formatting is not modelled:
 * the file is the structured header plus the sequence of vertex lines,
 * each line holding its six numbers.
 */
module Ply {
  import opened Grid

  // ---------------------------------------------------------------------------
  // File structure
  // ---------------------------------------------------------------------------

  datatype ScalarKind = Float | UChar

  /** One `property <kind> <name>` header line. */
  datatype Property = Property(kind: ScalarKind, name: string)

  /**
   * The header: the `format` line's text, the count of the
   * `element vertex` line, and the property lines in order.
   */
  datatype Header = Header(format: string, vertexCount: int, properties: seq<Property>)

  /** One vertex line: position, then the red, green and blue values. */
  datatype Vertex = Vertex(x: real, y: real, z: real, red: real, green: real, blue: real)

  datatype PlyFile = PlyFile(header: Header, vertices: seq<Vertex>)

  /** The six vertex properties both writers declare. */
  const VertexProperties: seq<Property> := [
    Property(Float, "x"), Property(Float, "y"), Property(Float, "z"),
    Property(UChar, "red"), Property(UChar, "green"), Property(UChar, "blue")
  ]

  /** The header both writers emit for `count` vertices, ASCII format 1.0. */
  function PlyHeader(count: int): (h: Header)
  {
    Header("ascii 1.0", count, VertexProperties)
  }

  /** A file is consistent when its header announces exactly the vertex lines it holds. */
  predicate Consistent(file: PlyFile)
  {
    file.header.vertexCount == |file.vertices| && |file.header.properties| == 6
  }

  // ---------------------------------------------------------------------------
  // Colour banding
  // ---------------------------------------------------------------------------

  /** The four disparity bands of the writer loop. */
  datatype Band = Invalid | BlueRamp | GreenRamp | RedRamp

  /**
   * The band a disparity falls in. d <= 0 and d >= 200 are invalid;
   * (0, 100), [100, 150) and [150, 200) are the three colour ramps.
   */
  function BandOf(d: real): (band: Band)
    ensures band == Invalid <==> d <= 0.0 || 200.0 <= d
    ensures band == BlueRamp <==> 0.0 < d < 100.0
    ensures band == GreenRamp <==> 100.0 <= d < 150.0
    ensures band == RedRamp <==> 150.0 <= d < 200.0
  {
    if d >= 200.0 || d <= 0.0 then Invalid
    else if d < 100.0 then BlueRamp
    else if d < 150.0 then GreenRamp
    else RedRamp
  }

  /** One record of the point-cloud buffer. */
  datatype Record = Record(x: real, y: real, z: real, d: real)

  /**
   * The vertex line the writer emits for one record. An invalid disparity
   * gives six zeros, discarding the record's position; otherwise the
   * position passes through and the colour is the band's ramp. Every
   * emitted colour value lies in [0, 255] without any clamp, and each
   * ramp saturates one channel: blue below 100, green in [100, 150), red
   * from 150.
   */
  function EmitVertex(rec: Record): (v: Vertex)
    ensures BandOf(rec.d) == Invalid ==> v == Vertex(0.0, 0.0, 0.0, 0.0, 0.0, 0.0)
    ensures BandOf(rec.d) != Invalid ==> v.x == rec.x && v.y == rec.y && v.z == rec.z
    ensures 0.0 <= v.red <= 255.0 && 0.0 <= v.green <= 255.0 && 0.0 <= v.blue <= 255.0
    ensures BandOf(rec.d) == BlueRamp ==> v.red == 0.0 && v.blue == 255.0
    ensures BandOf(rec.d) == GreenRamp ==> v.green == 255.0
    ensures BandOf(rec.d) == RedRamp ==> v.red == 255.0 && v.blue == 0.0
  {
    var d := rec.d;
    if d >= 200.0 || d <= 0.0 then
      Vertex(0.0, 0.0, 0.0, 0.0, 0.0, 0.0)
    else if d < 100.0 then
      Vertex(rec.x, rec.y, rec.z, 0.0, 2.0 * (d + 27.0), 255.0)
    else if d < 150.0 then
      Vertex(rec.x, rec.y, rec.z, 2.0 * (d - 23.0), 255.0, 255.0 - 2.0 * (d - 23.0))
    else
      Vertex(rec.x, rec.y, rec.z, 255.0, 255.0 - (d - 150.0) * 2.0, 0.0)
  }

  /**
   * The ramps do not join at 100: just below it red is 0 and blue 255,
   * at 100 red is 154 and blue 101. At 150 they nearly join: just below
   * it every channel is within 3 of its value at 150.
   */
  lemma RampEdges(x: real, y: real, z: real, d: real)
    ensures 99.0 < d < 100.0 ==>
      EmitVertex(Record(x, y, z, d)).red == 0.0 && EmitVertex(Record(x, y, z, d)).blue == 255.0
    ensures EmitVertex(Record(x, y, z, 100.0)).red == 154.0 && EmitVertex(Record(x, y, z, 100.0)).blue == 101.0
    ensures 149.0 <= d < 150.0 ==>
      var below, at := EmitVertex(Record(x, y, z, d)), EmitVertex(Record(x, y, z, 150.0));
      at.red - 3.0 <= below.red <= at.red && at.green == below.green && at.blue <= below.blue <= at.blue + 3.0
  {
  }

  // ---------------------------------------------------------------------------
  // The writer loop in main
  // ---------------------------------------------------------------------------

  /** Record k of the point-cloud buffer: floats 4k .. 4k+3. */
  function RecordAt(pointcloud: seq<real>, k: nat): Record
    requires 4 * k + 3 < |pointcloud|
  {
    Record(pointcloud[4 * k], pointcloud[4 * k + 1], pointcloud[4 * k + 2], pointcloud[4 * k + 3])
  }

  /** The vertex lines for the first `count` records, in buffer order. */
  function EmittedVertices(pointcloud: seq<real>, count: nat): (vs: seq<Vertex>)
    requires 4 * count <= |pointcloud|
  {
    seq(count, k requires 0 <= k < count => EmitVertex(RecordAt(pointcloud, k)))
  }

  lemma EmittedVerticesSnoc(pointcloud: seq<real>, count: nat)
    requires 4 * (count + 1) <= |pointcloud|
    ensures EmittedVertices(pointcloud, count + 1)
      == EmittedVertices(pointcloud, count) + [EmitVertex(RecordAt(pointcloud, count))]
  {
    var l, r := EmittedVertices(pointcloud, count + 1),
                EmittedVertices(pointcloud, count) + [EmitVertex(RecordAt(pointcloud, count))];
    assert |l| == |r|;
    forall k | 0 <= k < |l| ensures l[k] == r[k] {
    }
  }

  /**
   * The vertex line of pixel (i, j) is line i*width + j and is made from
   * the record at floats 4(i*width + j) .. 4(i*width + j) + 3.
   */
  lemma VertexOfPixel(pointcloud: seq<real>, width: int, height: int, i: int, j: int)
    requires 0 <= i < height && 0 <= j < width
    requires 4 * (width * height) <= |pointcloud|
    ensures 0 <= i * width + j < |EmittedVertices(pointcloud, width * height)|
    ensures EmittedVertices(pointcloud, width * height)[i * width + j]
      == EmitVertex(Record(pointcloud[4 * (i * width + j)], pointcloud[4 * (i * width + j) + 1],
                           pointcloud[4 * (i * width + j) + 2], pointcloud[4 * (i * width + j) + 3]))
  {
    RowMajorInBounds(i, j, width, height);
  }

  /**
   * The writer in main: the header announces width*height vertices, then
   * rows i and columns j are walked in order and line i*width + j is the
   * banded emission of record i*width + j.
   */
  method WritePointCloud(pointcloud: seq<real>, width: int, height: int) returns (file: PlyFile)
    requires width >= 0 && height >= 0
    requires 4 * (width * height) <= |pointcloud|
    ensures file.header == PlyHeader(width * height)
    ensures Consistent(file)
    ensures file.vertices == EmittedVertices(pointcloud, width * height)
  {
    var header := PlyHeader(width * height);
    var lines: seq<Vertex> := [];
    var i := 0;
    ghost var rowStart := 0;
    while i < height
      invariant 0 <= i <= height
      invariant rowStart == i * width && 0 <= rowStart <= width * height
      invariant lines == EmittedVertices(pointcloud, rowStart)
    {
      RowsBelow(i, width, height);
      var j := 0;
      while j < width
        invariant 0 <= j <= width
        invariant rowStart + j <= width * height
        invariant lines == EmittedVertices(pointcloud, rowStart + j)
      {
        RowMajorInBounds(i, j, width, height);
        var idx := i * width + j;
        assert idx == rowStart + j;
        var rec := Record(pointcloud[idx * 4 + 0], pointcloud[idx * 4 + 1],
                          pointcloud[idx * 4 + 2], pointcloud[idx * 4 + 3]);
        assert rec == RecordAt(pointcloud, idx);
        EmittedVerticesSnoc(pointcloud, idx);
        lines := lines + [EmitVertex(rec)];
        j := j + 1;
      }
      RowsBelow(i + 1, width, height);
      i, rowStart := i + 1, rowStart + width;
    }
    assert rowStart == width * height;
    file := PlyFile(header, lines);
  }
}
