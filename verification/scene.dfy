/** The part of the scene graph the STL saver looks at: the top-level
    children, the `Shape` node, its geometry node and the `IndexedFaceSet`
    fields that the saver reads. Polymorphic nodes and casts become tagged
    variants. */
module Scene {

  /** A float coordinate, represented by the text that `%f` prints for it.
      The saver never computes with coordinates; it only copies them. */
  type Token = string

  /** An `IndexedFaceSet`: the flat coordinate array (three floats per
      vertex), the flat corner-index array (each face's vertex indices
      closed by -1), the flat normal array and the node's own name. */
  datatype IndexedFaceSet = IndexedFaceSet(
    name: string,
    coord: seq<Token>,
    coordIndex: seq<int>,
    normal: seq<Token>)

  /** The node a `Shape` holds as its geometry. */
  datatype Geometry =
    | IndexedFaceSetGeometry(ifs: IndexedFaceSet)
    | OtherGeometry(kind: string)

  /** A top-level child of the scene graph. */
  datatype Node =
    | ShapeNode(geometry: Geometry)
    | OtherNode(kind: string)

  datatype SceneGraph = SceneGraph(children: seq<Node>)
}
