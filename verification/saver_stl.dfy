/** `SaverStl::save` and `SaverStl::saveFace_`: the chain of checks that
    decides whether a scene graph is written, the choice of the solid's
    name, and the facet blocks written for the faces of the one
    `IndexedFaceSet`. `Save` follows the code as written: the `facet normal`
    line of face `iF` prints `coord[3 * iF ..  3 * iF + 2]` and the normal
    array is never read. `SaveCorrected` is the evidently intended saver,
    which checks for one normal per face and prints it. */
module SaverStl {
  import opened Wrappers
  import opened Scene
  import opened Sequences
  import opened FaceTopology
  import opened PathNames
  import opened StlGrammar

  /** `vector<float>::operator[]` on a coordinate or normal array. */
  function At(a: seq<Token>, k: int): (r: Value)
    ensures r.Num? <==> 0 <= k < |a|
    ensures r.Num? ==> r.text == a[k]
    ensures r.OutOfRange? ==> r.index == k
  {
    if 0 <= k < |a| then Num(a[k]) else OutOfRange(k)
  }

  /** Entries `3 * v`, `3 * v + 1` and `3 * v + 2` of a flat array of
      triples: the position of vertex `v` when `a` is the coordinate array. */
  function TripleAt(a: seq<Token>, v: int): (t: Triple)
    ensures TripleInRange(a, v) ==> Defined(t)
    ensures !TripleInRange(a, v) ==> !Defined(t)
  {
    Triple(At(a, v * 3), At(a, v * 3 + 1), At(a, v * 3 + 2))
  }

  /** Triple `v` lies inside the array. */
  predicate TripleInRange(a: seq<Token>, v: int)
  {
    0 <= v && v * 3 + 2 < |a|
  }

  /** `IndexedFaceSet::isTriangleMesh`, whose code is not part of this
      model: every face has three corners. */
  predicate IsTriangleMesh(ifs: IndexedFaceSet)
  {
    forall i :: 0 <= i < FaceCount(ifs.coordIndex) ==> FaceSize(ifs.coordIndex, i) == 3
  }

  /** The structural checks of `save`, in the order the code makes them:
      a single child, which is a `Shape`, whose geometry is an
      `IndexedFaceSet`, which is a triangle mesh. The face set when all
      pass. */
  function Eligible(wrl: SceneGraph): (r: Option<IndexedFaceSet>)
    ensures r.Some? <==> (
      && |wrl.children| == 1
      && wrl.children[0].ShapeNode?
      && wrl.children[0].geometry.IndexedFaceSetGeometry?
      && IsTriangleMesh(wrl.children[0].geometry.ifs))
    ensures r.Some? ==> r.value == wrl.children[0].geometry.ifs
  {
    if |wrl.children| != 1 then None
    else match wrl.children[0]
      case OtherNode(_) => None
      case ShapeNode(geometry) =>
        match geometry
        case OtherGeometry(_) => None
        case IndexedFaceSetGeometry(ifs) =>
          if IsTriangleMesh(ifs) then Some(ifs) else None
  }

  /** The name on the `solid` line: the face set's own name, or the stem of
      the output path when that name is empty. */
  function SolidName(ifs: IndexedFaceSet, filename: string): string
  {
    if ifs.name != "" then ifs.name else Stem(filename)
  }

  /** What `saveFace_(fp, normals, vertexs, faces, iF)` writes, as
      written: the normal triple is taken from `vertexs` at position `iF`,
      and corner `j` prints the coordinates of vertex `getFaceVertex(iF, j)`.
      `normals` is a parameter, as in the source, and is not used. */
  function FacetAsWritten(normals: seq<Token>, vertexs: seq<Token>, ci: seq<int>, iF: nat): Facet
    requires iF < FaceCount(ci)
  {
    Facet(TripleAt(vertexs, iF), CornerTriples(vertexs, Split(ci)[iF]))
  }

  /** The face loop of `save`: faces `0 .. getNumberOfFaces() - 1`. */
  function FacetsAsWritten(ifs: IndexedFaceSet): seq<Facet>
  {
    seq(FaceCount(ifs.coordIndex), i requires 0 <= i < FaceCount(ifs.coordIndex) =>
      FacetAsWritten(ifs.normal, ifs.coord, ifs.coordIndex, i))
  }

  /** The effect of one call of `save`: whether `fopen` was called, and the
      lines of the file when the call returns true (`None` when it returns
      false). */
  datatype SaveOutcome = SaveOutcome(opensFile: bool, file: Option<seq<Line>>)
  {
    /** The boolean `save` returns. */
    predicate Succeeded()
    {
      file.Some?
    }
  }

  /** `SaverStl::save`. A null `filename` is `None`; `opens` is whether
      `fopen` succeeds, and is consulted only when every structural check
      has passed. */
  function Save(filename: Option<string>, wrl: SceneGraph, opens: bool): (r: SaveOutcome)
    ensures r.opensFile <==>
      && filename.Some?
      && |wrl.children| == 1
      && wrl.children[0].ShapeNode?
      && wrl.children[0].geometry.IndexedFaceSetGeometry?
      && IsTriangleMesh(wrl.children[0].geometry.ifs)
    ensures r.Succeeded() <==> r.opensFile && opens
    ensures !r.opensFile ==> r == SaveOutcome(false, None)
  {
    if filename.None? then SaveOutcome(false, None)
    else match Eligible(wrl)
      case None => SaveOutcome(false, None)
      case Some(ifs) =>
        if !opens then SaveOutcome(true, None)
        else SaveOutcome(true, Some(Encode(Document(SolidName(ifs, filename.value), FacetsAsWritten(ifs)))))
  }

  /** The file `save` writes reads back as the solid name and the facets of
      the face loop. */
  lemma {:induction false} SaveDecodes(filename: string, wrl: SceneGraph, opens: bool)
    requires Save(Some(filename), wrl, opens).Succeeded()
    ensures var ifs := wrl.children[0].geometry.ifs;
      Decode(Save(Some(filename), wrl, opens).file.value)
        == Some(Document(SolidName(ifs, filename), FacetsAsWritten(ifs)))
  {
    var ifs := wrl.children[0].geometry.ifs;
    DecodeEncode(Document(SolidName(ifs, filename), FacetsAsWritten(ifs)));
  }

  /** The header names the solid after the face set. An unnamed face set
      takes the base name of the output file: what precedes the dot of its
      extension. */
  lemma {:induction false} SaveHeader(filename: string, base: string, ext: string, ifs: IndexedFaceSet)
    requires |base| > 0 && |ext| > 0 && '.' !in ext
    requires FileName(filename) == base + (['.'] + ext)
    requires IsTriangleMesh(ifs)
    ensures var out := Save(Some(filename), SceneOf(ifs), true);
      && out.Succeeded()
      && |out.file.value| > 0
      && (ifs.name != "" ==> out.file.value[0] == Solid(ifs.name))
      && (ifs.name == "" ==> out.file.value[0] == Solid(base))
  {
    StemOfFileName(filename, base, ext);
  }

  /** What the file holds: one facet per face, in face order; facet `i`'s
      normal triple is `coord[3 * i .. 3 * i + 2]`; it has three corners, and
      corner `j` is the position of vertex `getFaceVertex(i, j)`. */
  lemma {:induction false} SaveFacets(filename: string, wrl: SceneGraph, opens: bool)
    requires Save(Some(filename), wrl, opens).Succeeded()
    ensures var lines := Save(Some(filename), wrl, opens).file.value;
      var ifs := wrl.children[0].geometry.ifs;
      var ci := ifs.coordIndex;
      && Decode(lines).Some?
      && |Decode(lines).value.facets| == FaceCount(ci)
      && forall i :: 0 <= i < FaceCount(ci) ==>
           var f := Decode(lines).value.facets[i];
           && f.normal == TripleAt(ifs.coord, i)
           && |f.corners| == FaceSize(ci, i) == 3
           && forall j :: 0 <= j < 3 ==> f.corners[j] == TripleAt(ifs.coord, FaceVertex(ci, i, j))
  {
    SaveDecodes(filename, wrl, opens);
  }

  /** Line by line: one header, then seven lines per face in face order
      (`facet normal`, `outer loop`, three `vertex` lines, `endloop`,
      `endfacet`), and nothing after the last block — no `endsolid`. */
  lemma {:induction false} SaveBlocks(filename: string, wrl: SceneGraph, opens: bool)
    requires Save(Some(filename), wrl, opens).Succeeded()
    ensures var lines := Save(Some(filename), wrl, opens).file.value;
      var ifs := wrl.children[0].geometry.ifs;
      var ci := ifs.coordIndex;
      && |lines| == 1 + 7 * FaceCount(ci)
      && lines[0] == Solid(SolidName(ifs, filename))
      && (forall i :: 0 <= i < FaceCount(ci) ==>
            lines[1 + 7 * i..1 + 7 * i + 7] ==
              [FacetNormal(TripleAt(ifs.coord, i)), OuterLoop,
               Vertex(TripleAt(ifs.coord, FaceVertex(ci, i, 0))),
               Vertex(TripleAt(ifs.coord, FaceVertex(ci, i, 1))),
               Vertex(TripleAt(ifs.coord, FaceVertex(ci, i, 2))),
               EndLoop, EndFacet])
      && (FaceCount(ci) == 0 ==> lines == [Solid(SolidName(ifs, filename))])
      && (FaceCount(ci) > 0 ==> lines[|lines| - 1] == EndFacet)
  {
    var ifs := wrl.children[0].geometry.ifs;
    var ci := ifs.coordIndex;
    var d := Document(SolidName(ifs, filename), FacetsAsWritten(ifs));
    FacetsShape(ifs);
    EncodeTriangles(d);
    forall i | 0 <= i < FaceCount(ci)
      ensures Encode(d)[1 + 7 * i..1 + 7 * i + 7] ==
        [FacetNormal(TripleAt(ifs.coord, i)), OuterLoop,
         Vertex(TripleAt(ifs.coord, FaceVertex(ci, i, 0))),
         Vertex(TripleAt(ifs.coord, FaceVertex(ci, i, 1))),
         Vertex(TripleAt(ifs.coord, FaceVertex(ci, i, 2))),
         EndLoop, EndFacet]
    {
      TriangleLines(d.facets[i]);
    }
  }

  /** A scene graph holding just one shape with this face set. */
  function SceneOf(ifs: IndexedFaceSet): SceneGraph
  {
    SceneGraph([ShapeNode(IndexedFaceSetGeometry(ifs))])
  }

  /** The normal array is never read: replacing it changes nothing. */
  lemma {:induction false} NormalsNeverRead(filename: Option<string>, ifs: IndexedFaceSet,
                                            normal: seq<Token>, opens: bool)
    ensures Save(filename, SceneOf(ifs), opens) == Save(filename, SceneOf(ifs.(normal := normal)), opens)
  {
    var ifs' := ifs.(normal := normal);
    assert FacetsAsWritten(ifs) == FacetsAsWritten(ifs');
  }

  /** The normal printed for face `iF` is the position of vertex `iF`. */
  lemma {:induction false} NormalIsVertexPosition(filename: string, wrl: SceneGraph, opens: bool, i: nat)
    requires Save(Some(filename), wrl, opens).Succeeded()
    requires i < FaceCount(wrl.children[0].geometry.ifs.coordIndex)
    ensures var lines := Save(Some(filename), wrl, opens).file.value;
      var coord := wrl.children[0].geometry.ifs.coord;
      && 1 + 7 * i < |lines|
      && lines[1 + 7 * i] == FacetNormal(Triple(At(coord, 3 * i), At(coord, 3 * i + 1), At(coord, 3 * i + 2)))
  {
    var lines := Save(Some(filename), wrl, opens).file.value;
    SaveBlocks(filename, wrl, opens);
    assert lines[1 + 7 * i] == lines[1 + 7 * i..1 + 7 * i + 7][0];
  }

  // ---------------------------------------------------------------------
  // The characters written, call by call.

  /** `fprintf(fp, "%f ", v)`. */
  function Printed(v: Value): string
    requires v.Num?
  {
    v.text + " "
  }

  /** The three `fprintf(fp, "%f ", …)` calls of one line. */
  function TripleWrites(t: Triple): seq<string>
    requires Defined(t)
  {
    [Printed(t.x), Printed(t.y), Printed(t.z)]
  }

  /** The corner loop of `saveFace_` (its lines 54-61) over the given vertex
      indices. */
  function CornerWrites(coord: seq<Token>, corners: seq<int>): seq<string>
    requires VerticesInRange(coord, corners)
  {
    if |corners| == 0 then []
    else (["    vertex "] + TripleWrites(TripleAt(coord, corners[0])) + ["\n"]
      + CornerWrites(coord, corners[1..]))
  }

  /** Every listed vertex has its position inside `coord`. */
  predicate VerticesInRange(coord: seq<Token>, corners: seq<int>)
  {
    forall j :: 0 <= j < |corners| ==> TripleInRange(coord, corners[j])
  }

  /** Every read `saveFace_` makes for face `iF` is inside `coord`. */
  predicate FaceReadsInRange(ifs: IndexedFaceSet, iF: nat)
    requires iF < FaceCount(ifs.coordIndex)
  {
    TripleInRange(ifs.coord, iF) && VerticesInRange(ifs.coord, Split(ifs.coordIndex)[iF])
  }

  /** The `fprintf` calls of `saveFace_(fp, normals, vertexs, faces, iF)`,
      in order. */
  function SaveFaceWrites(ifs: IndexedFaceSet, iF: nat): seq<string>
    requires iF < FaceCount(ifs.coordIndex) && FaceReadsInRange(ifs, iF)
  {
    ["facet normal "] + TripleWrites(TripleAt(ifs.coord, iF)) + ["\n  outer loop\n"]
      + CornerWrites(ifs.coord, Split(ifs.coordIndex)[iF])
      + ["  endloop\n", "endfacet\n"]
  }

  /** The characters of a list of writes. */
  function Concat(ws: seq<string>): string
  {
    if |ws| == 0 then "" else ws[0] + Concat(ws[1..])
  }

  lemma {:induction false} ConcatAppend(a: seq<string>, b: seq<string>)
    ensures Concat(a + b) == Concat(a) + Concat(b)
    decreases |a|
  {
    if |a| > 0 {
      assert (a + b)[1..] == a[1..] + b;
      ConcatAppend(a[1..], b);
      AppendAssoc(a[0], Concat(a[1..]), Concat(b));
    } else {
      assert a + b == b;
    }
  }

  /** A number's text with its trailing space, three times, is the text of
      the triple. */
  lemma {:induction false} TripleWritesText(t: Triple)
    requires Defined(t)
    ensures Concat(TripleWrites(t)) == TripleText(t)
  {
    var w := TripleWrites(t);
    assert w[1..][1..][1..] == [];
    assert Concat(w[1..][1..]) == Printed(t.z);
    assert Concat(w[1..]) == Printed(t.y) + Printed(t.z);
    calc {
      TripleText(t);
      t.x.text + " " + t.y.text + " " + t.z.text + " ";
      { AppendAssoc(t.x.text + " " + t.y.text + " ", t.z.text, " "); }
      t.x.text + " " + t.y.text + " " + Printed(t.z);
      { AppendAssoc(t.x.text + " " + t.y.text, " ", Printed(t.z));
        AppendAssoc(t.x.text + " ", t.y.text, " " + Printed(t.z));
        AppendAssoc(t.y.text, " ", Printed(t.z)); }
      t.x.text + " " + (Printed(t.y) + Printed(t.z));
      { AppendAssoc(t.x.text, " ", Printed(t.y) + Printed(t.z)); }
      Printed(t.x) + (Printed(t.y) + Printed(t.z));
    }
  }

  /** The corner loop writes exactly the text of the `vertex` lines. */
  lemma {:induction false} CornerWritesText(coord: seq<Token>, corners: seq<int>)
    requires VerticesInRange(coord, corners)
    ensures LinesDefined(VertexLines(CornerTriples(coord, corners)))
    ensures Concat(CornerWrites(coord, corners)) == Text(VertexLines(CornerTriples(coord, corners)))
    decreases |corners|
  {
    if |corners| > 0 {
      var t := TripleAt(coord, corners[0]);
      var rest := corners[1..];
      CornerWritesText(coord, rest);
      assert CornerTriples(coord, corners) == [t] + CornerTriples(coord, rest);
      assert ([t] + CornerTriples(coord, rest))[1..] == CornerTriples(coord, rest);
      var vl := VertexLines(CornerTriples(coord, corners));
      assert vl == [Vertex(t)] + VertexLines(CornerTriples(coord, rest));
      TextAppend([Vertex(t)], VertexLines(CornerTriples(coord, rest)));
      var head := ["    vertex "] + TripleWrites(t) + ["\n"];
      ConcatAppend(head, CornerWrites(coord, rest));
      ConcatAppend(["    vertex "] + TripleWrites(t), ["\n"]);
      ConcatAppend(["    vertex "], TripleWrites(t));
      TripleWritesText(t);
      assert Concat(["\n"]) == "\n";
      assert Concat(["    vertex "]) == "    vertex ";
      assert Text([Vertex(t)]) == "    vertex " + TripleText(t) + "\n";
    }
  }

  /** The positions of the given vertices. */
  function CornerTriples(coord: seq<Token>, corners: seq<int>): seq<Triple>
  {
    seq(|corners|, j requires 0 <= j < |corners| => TripleAt(coord, corners[j]))
  }

  /** The writes before the corner loop are the `facet normal` and
      `outer loop` lines. */
  lemma {:induction false} HeadWritesText(n: Triple)
    requires Defined(n)
    ensures LinesDefined([FacetNormal(n), OuterLoop])
    ensures Concat(["facet normal "] + TripleWrites(n) + ["\n  outer loop\n"]) == Text([FacetNormal(n), OuterLoop])
  {
    var w := ["facet normal "] + TripleWrites(n);
    ConcatAppend(w, ["\n  outer loop\n"]);
    ConcatAppend(["facet normal "], TripleWrites(n));
    TripleWritesText(n);
    assert Concat(["facet normal "]) == "facet normal ";
    assert Concat(["\n  outer loop\n"]) == "\n  outer loop\n";
    assert Text([OuterLoop]) == "  outer loop\n";
    var head := "facet normal " + TripleText(n);
    calc {
      Text([FacetNormal(n), OuterLoop]);
      head + "\n" + Text([OuterLoop]);
      head + "\n" + "  outer loop\n";
      { AppendAssoc(head, "\n", "  outer loop\n"); }
      head + "\n  outer loop\n";
    }
  }

  /** The writes after the corner loop are the `endloop` and `endfacet`
      lines. */
  lemma {:induction false} TailWritesText()
    ensures Concat(["  endloop\n", "endfacet\n"]) == Text([EndLoop, EndFacet])
  {
    assert Text([EndFacet]) == "endfacet\n";
    assert Concat(["endfacet\n"]) == "endfacet\n";
  }

  /** `saveFace_` writes exactly the text of face `iF`'s facet block: the
      calls' pieces, joined, are the block's lines, each ended by a newline
      (the `"\n  outer loop\n"` call ends one line and writes the next). */
  lemma {:induction false} SaveFaceWritesText(ifs: IndexedFaceSet, iF: nat)
    requires iF < FaceCount(ifs.coordIndex) && FaceReadsInRange(ifs, iF)
    ensures LinesDefined(FacetLines(FacetAsWritten(ifs.normal, ifs.coord, ifs.coordIndex, iF)))
    ensures Concat(SaveFaceWrites(ifs, iF)) == Text(FacetLines(FacetAsWritten(ifs.normal, ifs.coord, ifs.coordIndex, iF)))
  {
    var f := FacetAsWritten(ifs.normal, ifs.coord, ifs.coordIndex, iF);
    var corners := Split(ifs.coordIndex)[iF];
    var n := TripleAt(ifs.coord, iF);
    var top := [FacetNormal(n), OuterLoop];
    var vl := VertexLines(f.corners);
    var bottom := [EndLoop, EndFacet];
    var w1 := ["facet normal "] + TripleWrites(n) + ["\n  outer loop\n"];
    var w2 := CornerWrites(ifs.coord, corners);
    var w3 := ["  endloop\n", "endfacet\n"];
    HeadWritesText(n);
    CornerWritesText(ifs.coord, corners);
    TailWritesText();
    assert LinesDefined(bottom);
    TextAppend(top, vl);
    TextAppend(top + vl, bottom);
    ConcatAppend(w1 + w2, w3);
    ConcatAppend(w1, w2);
  }

  /** Every read the face loop makes is inside `coord`. */
  predicate ReadsInRange(ifs: IndexedFaceSet)
  {
    forall iF :: 0 <= iF < FaceCount(ifs.coordIndex) ==> FaceReadsInRange(ifs, iF)
  }

  /** The `fprintf` calls of the face loop for faces `0 .. n - 1`. */
  function FaceLoopWrites(ifs: IndexedFaceSet, n: nat): seq<string>
    requires n <= FaceCount(ifs.coordIndex) && ReadsInRange(ifs)
  {
    if n == 0 then [] else FaceLoopWrites(ifs, n - 1) + SaveFaceWrites(ifs, n - 1)
  }

  /** The `fprintf` calls of a successful `save`: the header, then the face
      loop. */
  function SaveWrites(name: string, ifs: IndexedFaceSet): seq<string>
    requires ReadsInRange(ifs)
  {
    ["solid " + CString(name) + "\n"] + FaceLoopWrites(ifs, FaceCount(ifs.coordIndex))
  }

  /** The first `n` rounds of the face loop write the text of the first `n`
      facet blocks. */
  lemma {:induction false} FaceLoopWritesText(ifs: IndexedFaceSet, n: nat)
    requires n <= FaceCount(ifs.coordIndex) && ReadsInRange(ifs)
    ensures LinesDefined(FacetsLines(FacetsAsWritten(ifs)[..n]))
    ensures Concat(FaceLoopWrites(ifs, n)) == Text(FacetsLines(FacetsAsWritten(ifs)[..n]))
  {
    var facets := FacetsAsWritten(ifs);
    if n == 0 {
      assert facets[..0] == [];
    } else {
      assert FaceReadsInRange(ifs, n - 1);
      var earlier, last := FaceLoopWrites(ifs, n - 1), SaveFaceWrites(ifs, n - 1);
      assert FaceLoopWrites(ifs, n) == earlier + last;
      assert facets[n - 1] == FacetAsWritten(ifs.normal, ifs.coord, ifs.coordIndex, n - 1);
      FaceLoopWritesText(ifs, n - 1);
      SaveFaceWritesText(ifs, n - 1);
      LoopStepText(facets, n, earlier, last);
    }
  }

  /** One more round of the face loop: the writes so far followed by the
      writes of facet `n - 1` are the text of the first `n` blocks. */
  lemma {:induction false} LoopStepText(facets: seq<Facet>, n: nat, earlier: seq<string>, last: seq<string>)
    requires 0 < n <= |facets|
    requires LinesDefined(FacetsLines(facets[..n - 1])) && Concat(earlier) == Text(FacetsLines(facets[..n - 1]))
    requires LinesDefined(FacetLines(facets[n - 1])) && Concat(last) == Text(FacetLines(facets[n - 1]))
    ensures LinesDefined(FacetsLines(facets[..n])) && Concat(earlier + last) == Text(FacetsLines(facets[..n]))
  {
    var f := facets[n - 1];
    var before := FacetsLines(facets[..n - 1]);
    assert FacetsLines(facets[..n]) == before + FacetLines(f) by {
      assert facets[..n] == facets[..n - 1] + [f];
      FacetsLinesSnoc(facets[..n - 1], f);
    }
    WritesThenWrites(earlier, last, before, FacetLines(f));
  }

  /** Writes of two line lists, one after the other, are writes of the
      joined list. */
  lemma {:induction false} WritesThenWrites(w1: seq<string>, w2: seq<string>, l1: seq<Line>, l2: seq<Line>)
    requires LinesDefined(l1) && LinesDefined(l2)
    requires Concat(w1) == Text(l1) && Concat(w2) == Text(l2)
    ensures LinesDefined(l1 + l2) && Concat(w1 + w2) == Text(l1 + l2)
  {
    TextAppend(l1, l2);
    ConcatAppend(w1, w2);
  }

  /** When every read is in range, the characters `save` writes are exactly
      the text of the lines it is modelled to write. */
  lemma {:induction false} SaveWritesText(filename: string, wrl: SceneGraph, opens: bool)
    requires Save(Some(filename), wrl, opens).Succeeded()
    requires ReadsInRange(wrl.children[0].geometry.ifs)
    ensures var lines := Save(Some(filename), wrl, opens).file.value;
      var ifs := wrl.children[0].geometry.ifs;
      && LinesDefined(lines)
      && Concat(SaveWrites(SolidName(ifs, filename), ifs)) == Text(lines)
  {
    var ifs := wrl.children[0].geometry.ifs;
    var name := SolidName(ifs, filename);
    var facets := FacetsAsWritten(ifs);
    var n := FaceCount(ifs.coordIndex);
    FacetsShape(ifs);
    assert facets[..n] == facets;
    FaceLoopWritesText(ifs, n);
    var header := "solid " + CString(name) + "\n";
    assert Text([Solid(name)]) == header;
    TextAppend([Solid(name)], FacetsLines(facets));
    ConcatAppend([header], FaceLoopWrites(ifs, n));
    assert Concat([header]) == header;
  }

  /** The file has a text, every number having been read inside its array,
      exactly when every read of the face loop is in range. */
  lemma {:induction false} SaveDefinedIff(filename: string, wrl: SceneGraph, opens: bool)
    requires Save(Some(filename), wrl, opens).Succeeded()
    ensures LinesDefined(Save(Some(filename), wrl, opens).file.value)
        <==> ReadsInRange(wrl.children[0].geometry.ifs)
  {
    var ifs := wrl.children[0].geometry.ifs;
    var lines := Save(Some(filename), wrl, opens).file.value;
    if ReadsInRange(ifs) {
      SaveWritesText(filename, wrl, opens);
    }
    if LinesDefined(lines) {
      SaveBlocks(filename, wrl, opens);
      forall iF | 0 <= iF < FaceCount(ifs.coordIndex)
        ensures FaceReadsInRange(ifs, iF)
      {
        BlockReadsInRange(filename, wrl, opens, iF);
      }
    }
  }

  /** A face whose block has a text was read inside `coord`. */
  lemma {:induction false} BlockReadsInRange(filename: string, wrl: SceneGraph, opens: bool, iF: nat)
    requires Save(Some(filename), wrl, opens).Succeeded()
    requires LinesDefined(Save(Some(filename), wrl, opens).file.value)
    requires iF < FaceCount(wrl.children[0].geometry.ifs.coordIndex)
    ensures FaceReadsInRange(wrl.children[0].geometry.ifs, iF)
  {
    var ifs := wrl.children[0].geometry.ifs;
    var ci := ifs.coordIndex;
    var lines := Save(Some(filename), wrl, opens).file.value;
    SaveBlocks(filename, wrl, opens);
    var face := Split(ci)[iF];
    assert |face| == FaceSize(ci, iF) == 3;
    var n := TripleAt(ifs.coord, iF);
    var c0, c1, c2 := TripleAt(ifs.coord, face[0]), TripleAt(ifs.coord, face[1]), TripleAt(ifs.coord, face[2]);
    assert lines[1 + 7 * iF..1 + 7 * iF + 7] ==
      [FacetNormal(n), OuterLoop, Vertex(c0), Vertex(c1), Vertex(c2), EndLoop, EndFacet];
    SliceDefined(lines, 1 + 7 * iF, 1 + 7 * iF + 7);
    TriangleBlockDefined(n, c0, c1, c2);
  }

  /** A slice of lines that all have a text has a text. */
  lemma {:induction false} SliceDefined(lines: seq<Line>, lo: nat, hi: nat)
    requires lo <= hi <= |lines| && LinesDefined(lines)
    ensures LinesDefined(lines[lo..hi])
  {
    forall k | 0 <= k < hi - lo
      ensures LineDefined(lines[lo..hi][k])
    {
      assert lines[lo..hi][k] == lines[lo + k];
    }
  }

  /** A triangle block has a text only when its normal and its three
      corners were read in range. */
  lemma {:induction false} TriangleBlockDefined(n: Triple, a: Triple, b: Triple, c: Triple)
    requires LinesDefined([FacetNormal(n), OuterLoop, Vertex(a), Vertex(b), Vertex(c), EndLoop, EndFacet])
    ensures Defined(n) && Defined(a) && Defined(b) && Defined(c)
  {
    var block := [FacetNormal(n), OuterLoop, Vertex(a), Vertex(b), Vertex(c), EndLoop, EndFacet];
    assert LineDefined(block[0]) && LineDefined(block[2]) && LineDefined(block[3]) && LineDefined(block[4]);
  }

  // ---------------------------------------------------------------------
  // Findings: the `facet normal` line, and the unchecked fifth condition.

  /** Condition 5 of the comment in `save`: one normal triple per face. */
  predicate HasFaceNormals(ifs: IndexedFaceSet)
  {
    |ifs.normal| == 3 * FaceCount(ifs.coordIndex)
  }

  /** Every corner names a vertex inside the coordinate array. */
  predicate CornersInRange(ifs: IndexedFaceSet)
  {
    forall i :: 0 <= i < FaceCount(ifs.coordIndex) ==> VerticesInRange(ifs.coord, Split(ifs.coordIndex)[i])
  }

  /** Face `iF` as intended: the normal triple comes from the normal array
      at position `iF`. */
  function FacetCorrected(ifs: IndexedFaceSet, iF: nat): Facet
    requires iF < FaceCount(ifs.coordIndex)
  {
    FacetAsWritten(ifs.normal, ifs.coord, ifs.coordIndex, iF).(normal := TripleAt(ifs.normal, iF))
  }

  function FacetsCorrected(ifs: IndexedFaceSet): seq<Facet>
  {
    seq(FaceCount(ifs.coordIndex), i requires 0 <= i < FaceCount(ifs.coordIndex) =>
      FacetCorrected(ifs, i))
  }

  /** The face loop gives one facet per face. Facet `i` has face `i`'s
      corners; its normal triple comes from `coord` as written and from the
      normal array as corrected. For a triangle mesh every facet is a
      triangle. */
  lemma {:induction false} FacetsShape(ifs: IndexedFaceSet)
    ensures |FacetsAsWritten(ifs)| == |FacetsCorrected(ifs)| == FaceCount(ifs.coordIndex)
    ensures forall i :: 0 <= i < FaceCount(ifs.coordIndex) ==>
      && FacetsAsWritten(ifs)[i].normal == TripleAt(ifs.coord, i)
      && FacetsCorrected(ifs)[i].normal == TripleAt(ifs.normal, i)
      && FacetsCorrected(ifs)[i].corners == FacetsAsWritten(ifs)[i].corners
      && |FacetsAsWritten(ifs)[i].corners| == FaceSize(ifs.coordIndex, i)
      && forall j :: 0 <= j < FaceSize(ifs.coordIndex, i) ==>
           FacetsAsWritten(ifs)[i].corners[j] == TripleAt(ifs.coord, FaceVertex(ifs.coordIndex, i, j))
    ensures IsTriangleMesh(ifs) ==> AllTriangles(FacetsAsWritten(ifs)) && AllTriangles(FacetsCorrected(ifs))
  {
  }

  /** The saver as its comments describe it: the fifth condition is checked
      with the other four, and each `facet normal` line prints the face's
      own normal. */
  function SaveCorrected(filename: Option<string>, wrl: SceneGraph, opens: bool): (r: SaveOutcome)
    ensures r.opensFile <==> filename.Some? && Eligible(wrl).Some? && HasFaceNormals(Eligible(wrl).value)
    ensures r.Succeeded() <==> r.opensFile && opens
  {
    if filename.None? then SaveOutcome(false, None)
    else match Eligible(wrl)
      case None => SaveOutcome(false, None)
      case Some(ifs) =>
        if !HasFaceNormals(ifs) then SaveOutcome(false, None)
        else if !opens then SaveOutcome(true, None)
        else SaveOutcome(true, Some(Encode(Document(SolidName(ifs, filename.value), FacetsCorrected(ifs)))))
  }

  /** Corrected: the normal of facet `i` is triple `i` of the normal array,
      and it was read inside that array. */
  lemma {:induction false} CorrectedNormals(filename: string, wrl: SceneGraph, opens: bool)
    requires SaveCorrected(Some(filename), wrl, opens).Succeeded()
    ensures var lines := SaveCorrected(Some(filename), wrl, opens).file.value;
      var ifs := wrl.children[0].geometry.ifs;
      && Decode(lines).Some?
      && |Decode(lines).value.facets| == FaceCount(ifs.coordIndex)
      && forall i :: 0 <= i < FaceCount(ifs.coordIndex) ==>
           && Decode(lines).value.facets[i].normal == TripleAt(ifs.normal, i)
           && Defined(Decode(lines).value.facets[i].normal)
  {
    var ifs := wrl.children[0].geometry.ifs;
    DecodeEncode(Document(SolidName(ifs, filename), FacetsCorrected(ifs)));
  }

  /** Corrected: when the corners name existing vertices, every number in
      the file was read inside its array, so the whole file has a text. */
  lemma {:induction false} CorrectedReadsInRange(filename: string, wrl: SceneGraph, opens: bool)
    requires SaveCorrected(Some(filename), wrl, opens).Succeeded()
    requires CornersInRange(wrl.children[0].geometry.ifs)
    ensures LinesDefined(SaveCorrected(Some(filename), wrl, opens).file.value)
  {
    var ifs := wrl.children[0].geometry.ifs;
    var ci := ifs.coordIndex;
    var facets := FacetsCorrected(ifs);
    FacetsShape(ifs);
    forall i | 0 <= i < |facets|
      ensures FacetDefined(facets[i])
    {
      assert TripleInRange(ifs.normal, i);
      forall j | 0 <= j < |facets[i].corners|
        ensures Defined(facets[i].corners[j])
      {
        assert TripleInRange(ifs.coord, FaceVertex(ci, i, j));
      }
    }
    EncodeDefined(Document(SolidName(ifs, filename), facets));
  }

  /** As written, the fifth condition is not checked: any single triangle
      without normals is written, whatever the path, name and coordinates.
      Corrected, it is refused before `fopen`. */
  lemma {:induction false} PerFaceNormalsNotChecked(filename: string, name: string, coord: seq<Token>, tri: seq<int>)
    requires |tri| == 3 && Sentinel !in tri
    ensures var ifs := IndexedFaceSet(name, coord, tri + [Sentinel], []);
      && Save(Some(filename), SceneOf(ifs), true).Succeeded()
      && !SaveCorrected(Some(filename), SceneOf(ifs), true).opensFile
  {
    SplitClosedRun(tri);
  }

  /** The single triangle `(0,0,0), (1,0,0), (0,1,0)` with normal `(0,0,1)`
      and name `cube`, with numbers as `%f` prints them. */
  function ExampleTriangle(): IndexedFaceSet
  {
    IndexedFaceSet("cube",
      ["0.000000", "0.000000", "0.000000",
       "1.000000", "0.000000", "0.000000",
       "0.000000", "1.000000", "0.000000"],
      [0, 1, 2, -1],
      ["0.000000", "0.000000", "1.000000"])
  }

  /** The faces of the corner array `[0, 1, 2, -1]`. */
  lemma {:induction false} OneTriangle()
    ensures Split([0, 1, 2, -1]) == [[0, 1, 2]]
  {
    SplitClosedRun([0, 1, 2]);
    assert [0, 1, 2] + [Sentinel] == [0, 1, 2, -1];
  }

  /** The lines of the example triangle's file, given the normal triple
      its `facet normal` line prints. */
  function ExampleLines(normal: Triple): seq<Line>
  {
    [Solid("cube"),
     FacetNormal(normal),
     OuterLoop,
     Vertex(Triple(Num("0.000000"), Num("0.000000"), Num("0.000000"))),
     Vertex(Triple(Num("1.000000"), Num("0.000000"), Num("0.000000"))),
     Vertex(Triple(Num("0.000000"), Num("1.000000"), Num("0.000000"))),
     EndLoop, EndFacet]
  }

  /** The example triangle's three corners. */
  function ExampleCorners(): seq<Triple>
  {
    [Triple(Num("0.000000"), Num("0.000000"), Num("0.000000")),
     Triple(Num("1.000000"), Num("0.000000"), Num("0.000000")),
     Triple(Num("0.000000"), Num("1.000000"), Num("0.000000"))]
  }

  /** A one-facet `cube` document with the example's corners has the
      example's lines. */
  lemma {:induction false} ExampleEncode(normal: Triple)
    ensures Encode(Document("cube", [Facet(normal, ExampleCorners())])) == ExampleLines(normal)
  {
    var f := Facet(normal, ExampleCorners());
    TriangleLines(f);
    assert FacetsLines([f]) == FacetLines(f) by {
      assert [f][1..] == [];
    }
  }

  /** The face loop over the example triangle, as written and corrected. */
  lemma {:induction false} ExampleFacets()
    ensures IsTriangleMesh(ExampleTriangle()) && HasFaceNormals(ExampleTriangle())
    ensures FacetsAsWritten(ExampleTriangle())
         == [Facet(Triple(Num("0.000000"), Num("0.000000"), Num("0.000000")), ExampleCorners())]
    ensures FacetsCorrected(ExampleTriangle())
         == [Facet(Triple(Num("0.000000"), Num("0.000000"), Num("1.000000")), ExampleCorners())]
  {
    var ifs := ExampleTriangle();
    OneTriangle();
    FacetsShape(ifs);
    assert CornerTriples(ifs.coord, [0, 1, 2]) == ExampleCorners();
  }

  /** As written, the example triangle's file prints the first vertex,
      `0 0 0`, as its normal instead of `0 0 1`; corrected, it prints
      `0 0 1`. Both files otherwise agree line for line. */
  lemma {:induction false} ExampleNormalIsFirstVertex()
    ensures Save(Some("out.stl"), SceneOf(ExampleTriangle()), true).file
         == Some(ExampleLines(Triple(Num("0.000000"), Num("0.000000"), Num("0.000000"))))
    ensures SaveCorrected(Some("out.stl"), SceneOf(ExampleTriangle()), true).file
         == Some(ExampleLines(Triple(Num("0.000000"), Num("0.000000"), Num("1.000000"))))
  {
    ExampleFacets();
    ExampleEncode(Triple(Num("0.000000"), Num("0.000000"), Num("0.000000")));
    ExampleEncode(Triple(Num("0.000000"), Num("0.000000"), Num("1.000000")));
  }

  /** A closed face written four times in a row. */
  function FourTimes(face: seq<int>): seq<int>
  {
    var one := face + [Sentinel];
    (one + one) + (one + one)
  }

  /** A face set whose faces are all the same in-range triangle is a
      triangle mesh with every corner in range. */
  lemma {:induction false} RepeatedFace(ifs: IndexedFaceSet, face: seq<int>)
    requires forall i :: 0 <= i < FaceCount(ifs.coordIndex) ==> Split(ifs.coordIndex)[i] == face
    requires |face| == 3 && VerticesInRange(ifs.coord, face)
    ensures IsTriangleMesh(ifs) && CornersInRange(ifs)
  {
  }

  /** A closed face written four times is four copies of that face. */
  lemma {:induction false} SplitFourTimes(face: seq<int>)
    requires Sentinel !in face
    ensures Split(FourTimes(face)) == [face, face, face, face]
  {
    var one := face + [Sentinel];
    var two := one + one;
    SplitClosedRun(face);
    SplitAppend(one, one);
    assert Split(two) == [face, face];
    SplitAppend(two, two);
  }

  /** Every entry of four copies is the copied face. The fact follows from
      the requires alone; it is stated separately so that the solver meets
      it in one small step instead of while it checks a whole saved file. */
  lemma {:induction false} FourCopies(faces: seq<seq<int>>, face: seq<int>)
    requires faces == [face, face, face, face]
    ensures forall i :: 0 <= i < |faces| ==> faces[i] == face
  {
  }

  /** As written, when a triangle whose corners lie inside a nine-entry
      coordinate array is the face four times over, the normal of face 3 is
      read from `coord[9 .. 11]`, past the end, although every corner names
      an existing vertex. Corrected, with one normal per face, the same mesh
      is read entirely in range. */
  lemma {:induction false} NormalReadOutOfRange(filename: string, ifs: IndexedFaceSet, tri: seq<int>)
    requires |tri| == 3 && Sentinel !in tri
    requires |ifs.coord| == 9 && VerticesInRange(ifs.coord, tri)
    requires ifs.coordIndex == FourTimes(tri) && |ifs.normal| == 12
    ensures CornersInRange(ifs)
    ensures var out := Save(Some(filename), SceneOf(ifs), true);
      && out.Succeeded()
      && |out.file.value| == 1 + 7 * 4
      && out.file.value[1 + 7 * 3] == FacetNormal(Triple(OutOfRange(9), OutOfRange(10), OutOfRange(11)))
    ensures SaveCorrected(Some(filename), SceneOf(ifs), true).Succeeded()
    ensures LinesDefined(SaveCorrected(Some(filename), SceneOf(ifs), true).file.value)
  {
    SplitFourTimes(tri);
    FourCopies(Split(ifs.coordIndex), tri);
    RepeatedFace(ifs, tri);
    assert HasFaceNormals(ifs);
    SaveBlocks(filename, SceneOf(ifs), true);
    NormalIsVertexPosition(filename, SceneOf(ifs), true, 3);
    CorrectedReadsInRange(filename, SceneOf(ifs), true);
  }

  /** An unnamed face set saved as `dir + base`, where `base` has no dot,
      gets `base` on its `solid` line, e.g. `out` for `/tmp/out`. */
  lemma {:induction false} SaveHeaderBare(dir: string, base: string, ifs: IndexedFaceSet)
    requires |dir| == 0 || dir[|dir| - 1] == '/'
    requires '/' !in base && '.' !in base
    requires IsTriangleMesh(ifs) && ifs.name == ""
    ensures var out := Save(Some(dir + base), SceneOf(ifs), true);
      out.Succeeded() && |out.file.value| > 0 && out.file.value[0] == Solid(base)
  {
    FileNameAfterDirectory(dir, base);
  }
}
