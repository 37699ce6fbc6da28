/** The ASCII STL document the saver writes, one `Line` per text line:
    a `solid` header, then per facet a `facet normal` line, `outer loop`,
    one `vertex` line per corner, `endloop` and `endfacet`. There is no
    closing `endsolid` line. `Encode` lays a document out as lines, `Decode`
    reads lines back, and `Text` gives the characters written to the file. */
module StlGrammar {
  import opened Wrappers
  import opened Scene
  import opened Sequences

  /** A number the saver prints: the coordinate it read, or a read outside
      the array it indexed (undefined behaviour in the source, kept visible
      here together with the index that was read). */
  datatype Value = Num(text: Token) | OutOfRange(index: int)

  /** The three numbers of a `facet normal` or `vertex` line. */
  datatype Triple = Triple(x: Value, y: Value, z: Value)

  datatype Line =
    | Solid(name: string)
    | FacetNormal(normal: Triple)
    | OuterLoop
    | Vertex(position: Triple)
    | EndLoop
    | EndFacet

  /** One facet: the triple on its `facet normal` line and one triple per
      corner, in corner order. */
  datatype Facet = Facet(normal: Triple, corners: seq<Triple>)

  /** A whole STL document: the solid's name and its facets, in order. */
  datatype Document = Document(name: string, facets: seq<Facet>)

  /** One `vertex` line per corner. */
  function VertexLines(corners: seq<Triple>): seq<Line>
  {
    if |corners| == 0 then [] else [Vertex(corners[0])] + VertexLines(corners[1..])
  }

  /** The lines of one facet block. */
  function FacetLines(f: Facet): seq<Line>
  {
    [FacetNormal(f.normal), OuterLoop] + VertexLines(f.corners) + [EndLoop, EndFacet]
  }

  /** The facet blocks one after the other, in facet order. */
  function FacetsLines(facets: seq<Facet>): seq<Line>
  {
    if |facets| == 0 then [] else FacetLines(facets[0]) + FacetsLines(facets[1..])
  }

  /** The document's lines: the header and the facet blocks, nothing after. */
  function Encode(d: Document): seq<Line>
  {
    [Solid(d.name)] + FacetsLines(d.facets)
  }

  /** The `vertex` lines at the front of `lines`, and what follows them. */
  function TakeVertices(lines: seq<Line>): (r: (seq<Triple>, seq<Line>))
    ensures VertexLines(r.0) + r.1 == lines
    ensures |r.1| > 0 ==> !r.1[0].Vertex?
  {
    if |lines| > 0 && lines[0].Vertex? then
      var (corners, rest) := TakeVertices(lines[1..]);
      assert VertexLines([lines[0].position] + corners)
          == [lines[0]] + VertexLines(corners) by {
        assert ([lines[0].position] + corners)[1..] == corners;
      }
      ([lines[0].position] + corners, rest)
    else ([], lines)
  }

  /** Reads facet blocks until the lines run out; `None` when the lines are
      not a sequence of well-formed blocks. */
  function DecodeFacets(lines: seq<Line>): (r: Option<seq<Facet>>)
    ensures r.Some? ==> FacetsLines(r.value) == lines
    decreases |lines|
  {
    if |lines| == 0 then Some([])
    else if |lines| >= 2 && lines[0].FacetNormal? && lines[1] == OuterLoop then
      var (corners, rest) := TakeVertices(lines[2..]);
      if |rest| >= 2 && rest[0] == EndLoop && rest[1] == EndFacet then
        match DecodeFacets(rest[2..])
        case None => None
        case Some(facets) =>
          BlockThenFacets(lines, corners, rest, facets);
          Some([Facet(lines[0].normal, corners)] + facets)
      else None
    else None
  }

  /** A facet block followed by the lines of more facets. */
  lemma {:induction false} BlockThenFacets(lines: seq<Line>, corners: seq<Triple>,
                                           rest: seq<Line>, facets: seq<Facet>)
    requires |lines| >= 2 && lines[0].FacetNormal? && lines[1] == OuterLoop
    requires VertexLines(corners) + rest == lines[2..]
    requires |rest| >= 2 && rest[0] == EndLoop && rest[1] == EndFacet
    requires FacetsLines(facets) == rest[2..]
    ensures FacetsLines([Facet(lines[0].normal, corners)] + facets) == lines
  {
    var f := Facet(lines[0].normal, corners);
    var head := [FacetNormal(f.normal), OuterLoop];
    var vs := VertexLines(corners);
    var tail := [EndLoop, EndFacet];
    FacetsLinesCons(f, facets);
    assert rest == tail + rest[2..];
    assert lines == head + lines[2..];
    calc {
      FacetsLines([f] + facets);
      (head + vs + tail) + rest[2..];
      { AppendAssoc(head + vs, tail, rest[2..]); }
      (head + vs) + rest;
      { AppendAssoc(head, vs, rest); }
      lines;
    }
  }

  /** Reads a document back from its lines. Only lines that `Encode`
      produces are accepted. */
  function Decode(lines: seq<Line>): (r: Option<Document>)
    ensures r.Some? ==> Encode(r.value) == lines
  {
    if |lines| > 0 && lines[0].Solid? then
      match DecodeFacets(lines[1..])
      case None => None
      case Some(facets) =>
        assert lines == [lines[0]] + lines[1..];
        Some(Document(lines[0].name, facets))
    else None
  }

  /** One more facet adds its block at the end. */
  lemma {:induction false} FacetsLinesSnoc(facets: seq<Facet>, f: Facet)
    ensures FacetsLines(facets + [f]) == FacetsLines(facets) + FacetLines(f)
    decreases |facets|
  {
    if |facets| == 0 {
      assert facets + [f] == [f];
      assert [f][1..] == [];
    } else {
      assert (facets + [f])[1..] == facets[1..] + [f];
      FacetsLinesSnoc(facets[1..], f);
      AppendAssoc(FacetLines(facets[0]), FacetsLines(facets[1..]), FacetLines(f));
    }
  }

  /** `FacetsLines` on a non-empty list, one step. */
  lemma {:induction false} FacetsLinesCons(f: Facet, facets: seq<Facet>)
    ensures FacetsLines([f] + facets) == FacetLines(f) + FacetsLines(facets)
  {
    assert ([f] + facets)[1..] == facets;
  }

  /** The `vertex` lines of a corner list come back out, and nothing else. */
  lemma {:induction false} TakeVerticesOfEncoded(corners: seq<Triple>, rest: seq<Line>)
    requires |rest| == 0 || !rest[0].Vertex?
    ensures TakeVertices(VertexLines(corners) + rest) == (corners, rest)
    decreases |corners|
  {
    if |corners| > 0 {
      var lines := VertexLines(corners) + rest;
      assert lines[1..] == VertexLines(corners[1..]) + rest;
      TakeVerticesOfEncoded(corners[1..], rest);
      assert [corners[0]] + corners[1..] == corners;
    } else {
      assert VertexLines(corners) + rest == rest;
    }
  }

  /** Decoding the blocks of a facet list gives the facets back. */
  lemma {:induction false} DecodeFacetsLines(facets: seq<Facet>)
    ensures DecodeFacets(FacetsLines(facets)) == Some(facets)
  {
    if |facets| > 0 {
      DecodeFacetsStep(facets[0], FacetsLines(facets[1..]));
      DecodeFacetsLines(facets[1..]);
      assert [facets[0]] + facets[1..] == facets;
    }
  }

  /** A facet block in front of some lines decodes to that facet in front
      of what the lines decode to. */
  lemma {:induction false} DecodeFacetsStep(f: Facet, rest: seq<Line>)
    ensures DecodeFacets(FacetLines(f) + rest)
         == if DecodeFacets(rest).Some? then Some([f] + DecodeFacets(rest).value) else None
  {
    var lines := FacetLines(f) + rest;
    var after := [EndLoop, EndFacet] + rest;
    assert lines == [FacetNormal(f.normal), OuterLoop] + (VertexLines(f.corners) + after);
    assert lines[2..] == VertexLines(f.corners) + after;
    TakeVerticesOfEncoded(f.corners, after);
    assert after[2..] == rest;
  }

  /** Decoding an encoded document gives the document back; with the
      postcondition of `Decode`, a document and its lines determine each
      other. */
  lemma {:induction false} DecodeEncode(d: Document)
    ensures Decode(Encode(d)) == Some(d)
  {
    var lines := Encode(d);
    assert lines[1..] == FacetsLines(d.facets);
    DecodeFacetsLines(d.facets);
  }

  /** Every facet is a triangle. */
  predicate AllTriangles(facets: seq<Facet>)
  {
    forall i :: 0 <= i < |facets| ==> |facets[i].corners| == 3
  }

  /** The lines of a triangle's block. */
  lemma {:induction false} TriangleLines(f: Facet)
    requires |f.corners| == 3
    ensures FacetLines(f) == [FacetNormal(f.normal), OuterLoop,
      Vertex(f.corners[0]), Vertex(f.corners[1]), Vertex(f.corners[2]), EndLoop, EndFacet]
  {
    var c := f.corners;
    assert VertexLines(c[2..]) == [Vertex(c[2])] by {
      assert c[2..][1..] == [];
    }
    assert VertexLines(c[1..]) == [Vertex(c[1]), Vertex(c[2])] by {
      assert c[1..][1..] == c[2..];
    }
  }

  /** For triangles the blocks have seven lines each, and block `i` holds
      facet `i`: the facet blocks appear in facet order, back to back. */
  lemma {:induction false} TriangleBlocks(facets: seq<Facet>)
    requires AllTriangles(facets)
    ensures |FacetsLines(facets)| == 7 * |facets|
    ensures forall i :: 0 <= i < |facets| ==>
      FacetsLines(facets)[7 * i..7 * i + 7] == FacetLines(facets[i])
  {
    if |facets| > 0 {
      var head := FacetLines(facets[0]);
      var tail := FacetsLines(facets[1..]);
      TriangleLines(facets[0]);
      TriangleBlocks(facets[1..]);
      forall i | 0 <= i < |facets|
        ensures FacetsLines(facets)[7 * i..7 * i + 7] == FacetLines(facets[i])
      {
        if i > 0 {
          assert (head + tail)[7 * i..7 * i + 7] == tail[7 * (i - 1)..7 * (i - 1) + 7];
          assert facets[1..][i - 1] == facets[i];
        } else {
          assert (head + tail)[..7] == head;
        }
      }
    }
  }

  /** A document of triangles has one header line and seven lines per
      facet; block `i` starts at line `1 + 7 * i`; the last line is the last
      facet's `endfacet`, or the header when there are no facets. */
  lemma {:induction false} EncodeTriangles(d: Document)
    requires AllTriangles(d.facets)
    ensures |Encode(d)| == 1 + 7 * |d.facets|
    ensures Encode(d)[0] == Solid(d.name)
    ensures forall i :: 0 <= i < |d.facets| ==>
      Encode(d)[1 + 7 * i..1 + 7 * i + 7] == FacetLines(d.facets[i])
    ensures |d.facets| == 0 ==> Encode(d) == [Solid(d.name)]
    ensures |d.facets| > 0 ==> Encode(d)[|Encode(d)| - 1] == EndFacet
  {
    var body := FacetsLines(d.facets);
    TriangleBlocks(d.facets);
    forall i | 0 <= i < |d.facets|
      ensures Encode(d)[1 + 7 * i..1 + 7 * i + 7] == FacetLines(d.facets[i])
    {
      assert Encode(d)[1 + 7 * i..1 + 7 * i + 7] == body[7 * i..7 * i + 7];
    }
    if |d.facets| > 0 {
      var n := |d.facets| - 1;
      TriangleLines(d.facets[n]);
      assert Encode(d)[1 + 7 * n..1 + 7 * n + 7][6] == EndFacet;
    }
  }

  /** All numbers of a triple were read inside their arrays. */
  predicate Defined(t: Triple)
  {
    t.x.Num? && t.y.Num? && t.z.Num?
  }

  predicate LineDefined(l: Line)
  {
    match l
    case FacetNormal(n) => Defined(n)
    case Vertex(v) => Defined(v)
    case _ => true
  }

  predicate LinesDefined(lines: seq<Line>)
  {
    forall i :: 0 <= i < |lines| ==> LineDefined(lines[i])
  }

  /** Every number of the facet was read inside its array. */
  predicate FacetDefined(f: Facet)
  {
    Defined(f.normal) && forall j :: 0 <= j < |f.corners| ==> Defined(f.corners[j])
  }

  lemma {:induction false} LinesDefinedAppend(a: seq<Line>, b: seq<Line>)
    requires LinesDefined(a) && LinesDefined(b)
    ensures LinesDefined(a + b)
  {
    forall i | 0 <= i < |a + b|
      ensures LineDefined((a + b)[i])
    {
      if i < |a| {
        assert (a + b)[i] == a[i];
      } else {
        assert (a + b)[i] == b[i - |a|];
      }
    }
  }

  lemma {:induction false} VertexLinesDefined(corners: seq<Triple>)
    requires forall j :: 0 <= j < |corners| ==> Defined(corners[j])
    ensures LinesDefined(VertexLines(corners))
    decreases |corners|
  {
    if |corners| > 0 {
      VertexLinesDefined(corners[1..]);
      LinesDefinedAppend([Vertex(corners[0])], VertexLines(corners[1..]));
    }
  }

  lemma {:induction false} FacetsLinesDefined(facets: seq<Facet>)
    requires forall i :: 0 <= i < |facets| ==> FacetDefined(facets[i])
    ensures LinesDefined(FacetsLines(facets))
    decreases |facets|
  {
    if |facets| > 0 {
      var f := facets[0];
      var top := [FacetNormal(f.normal), OuterLoop];
      VertexLinesDefined(f.corners);
      LinesDefinedAppend(top, VertexLines(f.corners));
      LinesDefinedAppend(top + VertexLines(f.corners), [EndLoop, EndFacet]);
      FacetsLinesDefined(facets[1..]);
      LinesDefinedAppend(FacetLines(f), FacetsLines(facets[1..]));
    }
  }

  /** A document whose numbers were all read inside their arrays has a
      text. */
  lemma {:induction false} EncodeDefined(d: Document)
    requires forall i :: 0 <= i < |d.facets| ==> FacetDefined(d.facets[i])
    ensures LinesDefined(Encode(d))
  {
    FacetsLinesDefined(d.facets);
    LinesDefinedAppend([Solid(d.name)], FacetsLines(d.facets));
  }

  /** The numbers of a line as `%f ` prints them: each followed by a space. */
  function TripleText(t: Triple): string
    requires Defined(t)
  {
    t.x.text + " " + t.y.text + " " + t.z.text + " "
  }

  /** What `%s` prints of a `std::string`'s `c_str()`: the characters
      before the first NUL, which ends the C string. */
  function CString(s: string): (r: string)
    ensures r <= s
    ensures '\0' !in r
    ensures |r| < |s| ==> s[|r|] == '\0'
  {
    if |s| == 0 || s[0] == '\0' then ""
    else [s[0]] + CString(s[1..])
  }

  /** A string without NUL is printed whole; one with a NUL is cut at its
      first NUL. */
  lemma {:induction false} CStringWhole(s: string)
    ensures CString(s) == s <==> '\0' !in s
    ensures forall k :: 0 <= k < |s| && s[k] == '\0' && '\0' !in s[..k] ==> CString(s) == s[..k]
  {
  }

  /** The characters of one line, without its newline. */
  function LineText(l: Line): string
    requires LineDefined(l)
  {
    match l
    case Solid(name) => "solid " + CString(name)
    case FacetNormal(n) => "facet normal " + TripleText(n)
    case OuterLoop => "  outer loop"
    case Vertex(v) => "    vertex " + TripleText(v)
    case EndLoop => "  endloop"
    case EndFacet => "endfacet"
  }

  /** The file's characters: every line followed by a newline. */
  function Text(lines: seq<Line>): string
    requires LinesDefined(lines)
  {
    if |lines| == 0 then "" else LineText(lines[0]) + "\n" + Text(lines[1..])
  }

  /** The text of two line lists written one after the other. */
  lemma {:induction false} TextAppend(a: seq<Line>, b: seq<Line>)
    requires LinesDefined(a) && LinesDefined(b)
    ensures LinesDefined(a + b)
    ensures Text(a + b) == Text(a) + Text(b)
    decreases |a|
  {
    if |a| > 0 {
      assert (a + b)[1..] == a[1..] + b;
      TextAppend(a[1..], b);
    } else {
      assert a + b == b;
    }
  }
}
