/** The text layout of `output_ply` in Src/utility.h: an ASCII PLY header that
    declares the vertex and face counts, one line per vertex, then one line per
    face giving its size followed by its vertex indices. */
module PlyOutput {
  import opened Geometry
  import opened Samples
  import opened Text

  /** The line declaring the number of vertices. */
  function VertexCountLine(n: nat): string {
    "element" + " " + "vertex" + " " + NatToString(n)
  }

  /** The line declaring the number of faces. */
  function FaceCountLine(n: nat): string {
    "element" + " " + "face" + " " + NatToString(n)
  }

  /** The nine header lines, from "ply" to "end_header". */
  function Header(vertexCount: nat, faceCount: nat): seq<string> {
    ["ply", "format ascii 1.0", VertexCountLine(vertexCount),
     "property float x", "property float y", "property float z",
     FaceCountLine(faceCount), "property list uchar int vertex_index", "end_header"]
  }

  /** A vertex line: the three coordinates, as the stream formats them, separated
      by single spaces. */
  function VertexLine(p: Vec3, fmt: real -> string): string {
    fmt(p.x) + " " + fmt(p.y) + " " + fmt(p.z)
  }

  /** " i0 i1 ...": a space before each index of `f`. */
  function IndexText(f: seq<int>): string {
    if f == [] then [] else IndexText(f[..|f| - 1]) + " " + IntToString(f[|f| - 1])
  }

  /** A face line: the number of indices, then each index. */
  function FaceLine(f: seq<int>): string {
    NatToString(|f|) + IndexText(f)
  }

  /** The numerals of the indices of a face, in order. */
  function IndexWords(f: seq<int>): (ws: seq<string>)
    ensures |ws| == |f|
    ensures forall j :: 0 <= j < |f| ==> ws[j] == IntToString(f[j])
  {
    if f == [] then [] else IndexWords(f[..|f| - 1]) + [IntToString(f[|f| - 1])]
  }

  lemma NumeralIsWord(n: nat)
    ensures Word(NatToString(n))
  {
  }

  /** Splitting a face line on spaces gives the face's size, then each index, in
      order; the first word reads back as the size. */
  lemma {:induction false} FaceLineWords(f: seq<int>)
    ensures Tokens(FaceLine(f), ' ') == [NatToString(|f|)] + IndexWords(f)
    ensures Value(NatToString(|f|)) == |f|
  {
    NatToStringValue(|f|);
    FaceLineWordsFrom(NatToString(|f|), f);
  }

  lemma {:induction false} FaceLineWordsFrom(head: string, f: seq<int>)
    requires Word(head)
    ensures Tokens(head + IndexText(f), ' ') == [head] + IndexWords(f)
    decreases |f|
  {
    if f == [] {
      SingleToken(head, ' ');
      assert head + [] == head;
    } else {
      var init := f[..|f| - 1];
      var x, w := head + IndexText(init), IntToString(f[|f| - 1]);
      IndexTextSnoc(head, f);
      FaceLineWordsFrom(head, init);
      AppendWord(x, w);
      assert [head] + IndexWords(init) + [w] == [head] + (IndexWords(init) + [w]);
    }
  }

  lemma IndexTextSnoc(head: string, f: seq<int>)
    requires f != []
    ensures head + IndexText(f) == (head + IndexText(f[..|f| - 1])) + " " + IntToString(f[|f| - 1])
  {
    var a, w := IndexText(f[..|f| - 1]), IntToString(f[|f| - 1]);
    assert IndexText(f) == a + " " + w;
    ConcatAssoc(head, a, w);
  }

  lemma ConcatAssoc(h: string, a: string, w: string)
    ensures h + (a + " " + w) == (h + a) + " " + w
  {
  }

  /** The count lines split into "element", the element name and the count, and
      the count reads back as the number given. */
  lemma CountLineWords(n: nat)
    ensures Tokens(VertexCountLine(n), ' ') == ["element", "vertex", NatToString(n)]
    ensures Tokens(FaceCountLine(n), ' ') == ["element", "face", NatToString(n)]
    ensures Value(NatToString(n)) == n
  {
    NatToStringValue(n);
    NumeralIsWord(n);
    ThreeWords("element", "vertex", NatToString(n));
    ThreeWords("element", "face", NatToString(n));
  }

  lemma ThreeWords(a: string, b: string, c: string)
    requires Word(a) && Word(b) && Word(c)
    ensures Tokens(a + " " + b + " " + c, ' ') == [a, b, c]
  {
    SingleToken(a, ' ');
    AppendWord(a, b);
    AppendWord(a + " " + b, c);
  }

  /** With a formatter that writes each coordinate as one word, a vertex line
      splits into the three coordinates in order. */
  lemma VertexLineWords(p: Vec3, fmt: real -> string)
    requires Word(fmt(p.x)) && Word(fmt(p.y)) && Word(fmt(p.z))
    ensures Tokens(VertexLine(p, fmt), ' ') == [fmt(p.x), fmt(p.y), fmt(p.z)]
  {
    ThreeWords(fmt(p.x), fmt(p.y), fmt(p.z));
  }

  /** The inner loop of `output_ply` for one face: its size, then a space and an
      index for each of its vertices. */
  method WriteFace(f: seq<int>) returns (line: string)
    ensures line == FaceLine(f)
  {
    line := NatToString(|f|);
    for j := 0 to |f|
      invariant line == NatToString(|f|) + IndexText(f[..j])
    {
      assert f[..j + 1][..j] == f[..j];
      IndexTextSnoc(NatToString(|f|), f[..j + 1]);
      line := line + " " + IntToString(f[j]);
    }
    assert f[..|f|] == f;
  }

  /** The vertex section: each vertex mapped through `xform`, one line each, in
      order. */
  function VertexLines(points: seq<Vec3>, xform: Vec3 -> Vec3, fmt: real -> string): (r: seq<string>)
    ensures |r| == |points|
    ensures forall i :: 0 <= i < |points| ==> r[i] == VertexLine(xform(points[i]), fmt)
  {
    if points == [] then []
    else VertexLines(points[..|points| - 1], xform, fmt) + [VertexLine(xform(points[|points| - 1]), fmt)]
  }

  /** The vertex loop of `output_ply`. */
  method WriteVertices(points: seq<Vec3>, xform: Vec3 -> Vec3, fmt: real -> string) returns (out: seq<string>)
    ensures out == VertexLines(points, xform, fmt)
  {
    out := [];
    for i := 0 to |points|
      invariant out == VertexLines(points[..i], xform, fmt)
    {
      var p := xform(points[i]);
      assert points[..i + 1][..i] == points[..i];
      out := out + [fmt(p.x) + " " + fmt(p.y) + " " + fmt(p.z)];
    }
    assert points[..|points|] == points;
  }

  /** The face section: one line per face, in order. */
  function FaceLines(faces: seq<seq<int>>): (r: seq<string>)
    ensures |r| == |faces|
    ensures forall j :: 0 <= j < |faces| ==> r[j] == FaceLine(faces[j])
  {
    if faces == [] then [] else FaceLines(faces[..|faces| - 1]) + [FaceLine(faces[|faces| - 1])]
  }

  /** The outer face loop of `output_ply`. */
  method WriteFaces(faces: seq<seq<int>>) returns (out: seq<string>)
    ensures out == FaceLines(faces)
  {
    out := [];
    for i := 0 to |faces|
      invariant out == FaceLines(faces[..i])
    {
      var line := WriteFace(faces[i]);
      assert faces[..i + 1][..i] == faces[..i];
      out := out + [line];
    }
    assert faces[..|faces|] == faces;
  }

  /** The whole file `output_ply` writes, one string per line: the header, then
      each vertex mapped through `xform`, then each face. */
  function PlyText(mesh: Mesh, xform: Vec3 -> Vec3, fmt: real -> string): (r: seq<string>)
    ensures |r| == 9 + |mesh.vertices| + |mesh.faces|
    ensures r[..9] == Header(|mesh.vertices|, |mesh.faces|)
    ensures forall i :: 0 <= i < |mesh.vertices| ==> r[9 + i] == VertexLine(xform(mesh.vertices[i]), fmt)
    ensures forall j :: 0 <= j < |mesh.faces| ==> r[9 + |mesh.vertices| + j] == FaceLine(mesh.faces[j])
  {
    var header := Header(|mesh.vertices|, |mesh.faces|);
    var body := VertexLines(mesh.vertices, xform, fmt) + FaceLines(mesh.faces);
    assert (header + body)[..9] == header;
    header + body
  }

  /** The counts the header declares are the numbers of vertex and face lines that
      follow it: each count line splits into "element", the element's name and a
      numeral that reads back as that count. */
  lemma HeaderMatchesBody(mesh: Mesh, xform: Vec3 -> Vec3, fmt: real -> string)
    ensures var r := PlyText(mesh, xform, fmt);
      Tokens(r[2], ' ') == ["element", "vertex", NatToString(|mesh.vertices|)]
      && Tokens(r[6], ' ') == ["element", "face", NatToString(|mesh.faces|)]
      && |r| == 9 + Value(NatToString(|mesh.vertices|)) + Value(NatToString(|mesh.faces|))
  {
    var r := PlyText(mesh, xform, fmt);
    var nv, nf := |mesh.vertices|, |mesh.faces|;
    assert r[2] == r[..9][2] == VertexCountLine(nv);
    assert r[6] == r[..9][6] == FaceCountLine(nf);
    CountLineWords(nv);
    CountLineWords(nf);
  }

  /** `output_ply`: when the file cannot be opened nothing is written and the
      result is false; otherwise the header, each vertex mapped through `xform` and
      written as a line, then each face written index by index. */
  method OutputPly(mesh: Mesh, xform: Vec3 -> Vec3, fmt: real -> string, opens: bool)
    returns (ok: bool, lines: seq<string>)
    ensures ok == opens
    ensures !ok ==> lines == []
    ensures ok ==> lines == PlyText(mesh, xform, fmt)
  {
    if !opens {
      return false, [];
    }
    var header := Header(|mesh.vertices|, |mesh.faces|);
    var vertexLines := WriteVertices(mesh.vertices, xform, fmt);
    var faceLines := WriteFaces(mesh.faces);
    lines := header + vertexLines + faceLines;
    ok := true;
  }
}
