/**
 * `generateVertices` and the vertex-to-viewport routing: six vertices (two triangles covering
 * the whole clip square) per colour, and the vertex shader's `gl_ViewportIndex = gl_VertexIndex / 6`.
 */
module Vertices {
  import opened Geometry
  import opened Colors

  /** A clip-space corner tag: x and y are -1 or 1 (z is 0 and w is 1 for every vertex). */
  datatype ClipPos = ClipPos(x: int, y: int)

  /** `PositionColorVertex`: a position and a colour. */
  datatype Vertex = Vertex(position: ClipPos, color: Rgba)

  /** The corner of each of the six vertices of one quad, in emission order. */
  const QuadCorners: seq<ClipPos> :=
    [ClipPos(-1, 1), ClipPos(1, 1), ClipPos(-1, -1), ClipPos(1, -1), ClipPos(1, 1), ClipPos(-1, -1)]

  /** The four corners of the clip square. */
  const ClipSquare: set<ClipPos> := {ClipPos(-1, -1), ClipPos(1, -1), ClipPos(-1, 1), ClipPos(1, 1)}

  /** The vertex stream `generateVertices(colors)` returns: vertex i is corner i % 6 in colour i / 6. */
  function VertexStream(colors: seq<Rgba>): seq<Vertex>
  {
    seq(6 * |colors|, i requires 0 <= i < 6 * |colors| => Vertex(QuadCorners[i % 6], colors[i / 6]))
  }

  /** `generateVertices`: a loop over 6 * |colors| indices with a switch on i % 6. */
  method GenerateVertices(colors: seq<Rgba>) returns (result: seq<Vertex>)
    ensures |result| == 6 * |colors|
    ensures result == VertexStream(colors)
  {
    var total := |colors| * 6;
    result := [];
    var i := 0;
    while i < total
      invariant 0 <= i <= total
      invariant result == VertexStream(colors)[..i]
    {
      var pos: ClipPos;
      match i % 6 {
        case 0 => pos := ClipPos(-1, 1);
        case 1 => pos := ClipPos(1, 1);
        case 2 => pos := ClipPos(-1, -1);
        case 3 => pos := ClipPos(1, -1);
        case 4 => pos := ClipPos(1, 1);
        case 5 => pos := ClipPos(-1, -1);
      }
      result := result + [Vertex(pos, colors[i / 6])];
      i := i + 1;
    }
  }

  /**
   * The vertex shader: `gl_ViewportIndex = gl_VertexIndex / 6`, the one k whose six vertices
   * 6k .. 6k + 5 include the vertex.
   */
  function ViewportIndex(vertexIndex: nat): (k: nat)
    ensures 6 * k <= vertexIndex < 6 * k + 6
  {
    vertexIndex / 6
  }

  /** The vertex count of the draw call, `numViewports * 6`: six whole vertices per viewport. */
  function DrawCount(numViewports: nat): (count: nat)
    ensures count % 6 == 0 && count / 6 == numViewports
  {
    numViewports * 6
  }

  /** Vertex v is routed to viewport k exactly when it is one of the six vertices 6k .. 6k + 5. */
  lemma ViewportOfVertex(v: nat, k: nat)
    ensures ViewportIndex(v) == k <==> 6 * k <= v < 6 * k + 6
  {
  }

  /** Every vertex the draw emits is routed to an existing viewport, and no other vertex is. */
  lemma DrawStaysInViewports(numViewports: nat, v: nat)
    ensures v < DrawCount(numViewports) <==> ViewportIndex(v) < numViewports
  {
  }

  /**
   * Every vertex of the stream is drawn, goes to viewport i / 6, which exists, and carries that
   * viewport's colour.
   */
  lemma StreamRouting(colors: seq<Rgba>, v: nat)
    requires v < |VertexStream(colors)|
    ensures v < DrawCount(|colors|)
    ensures ViewportIndex(v) < |colors|
    ensures VertexStream(colors)[v].color == colors[ViewportIndex(v)]
  {
  }

  /**
   * The six vertices of each viewport form two triangles that tile the clip square: together
   * they use all four corners, and they share exactly one diagonal.
   */
  lemma QuadTilesClipSquare(colors: seq<Rgba>, k: nat)
    requires k < |colors|
    ensures var s := VertexStream(colors);
      var first := {s[6 * k].position, s[6 * k + 1].position, s[6 * k + 2].position};
      var second := {s[6 * k + 3].position, s[6 * k + 4].position, s[6 * k + 5].position};
      |first| == 3 && |second| == 3 &&
      first + second == ClipSquare &&
      first * second == {ClipPos(1, 1), ClipPos(-1, -1)}
  {
    var s := VertexStream(colors);
    assert s[6 * k].position == ClipPos(-1, 1);
    assert s[6 * k + 1].position == ClipPos(1, 1);
    assert s[6 * k + 2].position == ClipPos(-1, -1);
    assert s[6 * k + 3].position == ClipPos(1, -1);
    assert s[6 * k + 4].position == ClipPos(1, 1);
    assert s[6 * k + 5].position == ClipPos(-1, -1);
  }

  /**
   * `sizeInBytes(vec)`: element count times element size, so the bytes split into exactly
   * |vec| elements.
   */
  function SizeInBytes<T>(vec: seq<T>, elementSize: nat): (size: nat)
    ensures elementSize == 0 ==> size == 0
    ensures elementSize > 0 ==> size % elementSize == 0 && size / elementSize == |vec|
  {
    if elementSize == 0 then 0
    else
      DivModOf(|vec| * elementSize, |vec|, 0, elementSize);
      |vec| * elementSize
  }

  /**
   * The vertex buffer, sized with `sizeInBytes`, holds exactly the vertices the draw reads: the
   * draw of DrawCount(n) vertices at a stride of one vertex spans the whole buffer and no more.
   */
  lemma VertexBufferFitsDraw(colors: seq<Rgba>, vertexSize: nat)
    ensures SizeInBytes(VertexStream(colors), vertexSize) == DrawCount(|colors|) * vertexSize
  {
  }
}
