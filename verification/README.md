# ASCII STL saver: a Dafny model

This project models `SaverStl::save` and `SaverStl::saveFace_`, the exporter
that writes a scene graph to an ASCII STL file. It covers three parts:

- **The eligibility chain of `save`.** The file name must be non-null. The
  scene graph must have exactly one child, that child must be a `Shape`,
  its geometry must be an `IndexedFaceSet`, and the face set must be a
  triangle mesh. Only then is `fopen` called.
- **The choice of the solid's name.** It is the face set's own name, or the
  stem of the output path when that name is empty.
- **The facet blocks.** `saveFace_` writes one block per face, in face order:
  a `facet normal` line, `outer loop`, one `vertex` line per corner,
  `endloop` and `endfacet`.

The model is written in pure functions. Its modules:

| module | file | contents |
|---|---|---|
| `Wrappers` | `wrappers.dfy` | `Option` |
| `Sequences` | `sequences.dfy` | associativity of `+` on sequences |
| `Scene` | `scene.dfy` | the scene graph: nodes, geometry, the `IndexedFaceSet` fields the saver reads |
| `FaceTopology` | `faces.dfy` | the `Faces` adapter, as the saver assumes it behaves |
| `PathNames` | `paths.dfy` | `path::filename` and `path::stem`, for `/`-separated paths |
| `StlGrammar` | `stl_grammar.dfy` | the STL document as lines; encoder, decoder, and the text of the lines |
| `SaverStl` | `saver_stl.dfy` | `save` and `saveFace_` as written, the writes call by call, and the corrected saver |

Numbers are kept as the text that `%f` prints. A `vector<float>` read past
the end of its array is undefined behaviour in C++. The model keeps such a
read visible as `OutOfRange(index)`, so that the as-written saver stays total.
Whether `fopen` succeeds is a boolean parameter, `opens`. The outcome of
`save` records two things: whether `fopen` was called, and the file's lines
when `save` returns true.

The `Faces` class is not part of this model. The saver relies on it to
split the corner-index array at each -1. Every -1 closes the current face,
so two -1 in a row give an empty face. A non-empty run after the last -1 is
a face too. `FaceTopology.Split` is that reading, and `FaceTopology.Flatten`
is its inverse. `FaceTopology.BuildFaces` is a one-pass scan that records
each face as a window into the array, and it is proved to agree with `Split`.
The corner count passed to the `Faces` constructor is taken to be the length
of the corner-index array. `IndexedFaceSet::isTriangleMesh` is not shown
either: it is modelled as "every face has three corners".

The `facet normal` line does not print the face's normal. `saveFace_`
receives the normal array as its `normals` parameter
(src/io/SaverStl.cpp:48) and never reads it. The comment in `save` asks for
"normals per face" (src/io/SaverStl.cpp:83). In an STL file, a `facet normal`
line carries the facet's own normal. Yet line 51 prints
`vertexs[iF*3+i]`, that is `coord[3 * iF .. 3 * iF + 2]`: the position of
vertex `iF`. `SaverStl.Save` follows the code, and all the lemmas about
`Save` describe what the program does. The intended behaviour is
`SaverStl.SaveCorrected`, which has its own lemmas (see Findings).

## Model

| member | source | states |
|---|---|---|
| SaverStl.Save | src/io/SaverStl.cpp:68-125 | `fopen` is called exactly when the name is non-null, there is one child, it is a `Shape`, its geometry is an `IndexedFaceSet`, and that set is a triangle mesh. A call that fails a check before `fopen` returns false, whatever `fopen` would have done. `save` returns true exactly when `fopen` was called and succeeded. |
| SaverStl.Eligible | src/io/SaverStl.cpp:87-95 | The structural chain passes exactly when all four conditions hold, and it yields the child's face set. |
| SaverStl.SaveDecodes | src/io/SaverStl.cpp:106-113 | The written lines read back as the solid's name followed by the facets of the face loop. |
| SaverStl.SaveHeader | src/io/SaverStl.cpp:98-106 | For any triangle mesh, when `fopen` succeeds, the call returns true. The first line is `solid` followed by the face set's name. When that name is empty, it is the base name of the output file, the part before the dot of its extension. |
| SaverStl.SaveHeaderBare | src/io/SaverStl.cpp:98-106 | Save an unnamed triangle mesh to a directory (empty or ending in `/`) joined with a base name that has no dot, with `fopen` succeeding. The call returns true, and the first line is `solid` followed by the base name, e.g. `out` for `/tmp/out`. |
| SaverStl.SaveBlocks | src/io/SaverStl.cpp:106-114 | The file has 1 + 7·n lines. Block `i` sits at lines `1 + 7i .. 7 + 7i` and holds the seven lines of face `i`. The last line is the last `endfacet`: there is no `endsolid`. With no faces, the file is the header alone. |
| SaverStl.SaveFacets | src/io/SaverStl.cpp:54-58 | Facet `i` has three corners. Corner `j` is the position of vertex `getFaceVertex(i, j)`, and its normal is `coord` triple `i`. |
| SaverStl.NormalIsVertexPosition | src/io/SaverStl.cpp:49-52 | The `facet normal` line of face `i` prints `coord[3i]`, `coord[3i+1]` and `coord[3i+2]`. |
| SaverStl.NormalsNeverRead | src/io/SaverStl.cpp:48-64 | Replacing the normal array by any other array changes neither the outcome nor the file. |
| SaverStl.CornerWritesText | src/io/SaverStl.cpp:54-61 | The corner loop's `fprintf` calls, joined, are the text of the face's `vertex` lines. |
| SaverStl.TripleWritesText | src/io/SaverStl.cpp:50-52 | The three `"%f "` calls of a triple, joined, are the triple's text: three numbers, each followed by a space. |
| SaverStl.HeadWritesText | src/io/SaverStl.cpp:49-53 | `"facet normal "`, the three numbers and `"\n  outer loop\n"` are the text of the `facet normal` and `outer loop` lines. The second line starts inside the same `fprintf` call. |
| SaverStl.SaveFaceWritesText | src/io/SaverStl.cpp:48-64 | The `fprintf` calls of `saveFace_`, joined, are exactly the text of the face's seven-line block, each line ended by a newline. |
| SaverStl.FaceLoopWritesText | src/io/SaverStl.cpp:110-113 | The first `n` rounds of the face loop write the text of the first `n` facet blocks. |
| SaverStl.SaveWritesText | src/io/SaverStl.cpp:106-113 | When every read is in range, the characters `save` writes are the text of the modelled lines. The header holds the name up to its first NUL, as `%s` prints `c_str()`. |
| SaverStl.SaveDefinedIff | src/io/SaverStl.cpp:51-58 | Every number in the file was read inside its array exactly when every read of the face loop is in range. |
| SaverStl.TripleAt | src/io/SaverStl.cpp:51 | A triple of an array is fully read in range exactly when `v` is not negative and `3v + 2` is below the array's length. Otherwise at least one of its reads is out of range. |
| SaverStl.PerFaceNormalsNotChecked | src/io/SaverStl.cpp:82-95 | Every single-triangle mesh with an empty normal array is written by `save`, whatever its path, name and coordinates. The corrected saver refuses it before `fopen`. |
| SaverStl.ExampleNormalIsFirstVertex | src/io/SaverStl.cpp:49-52 | For the one-triangle `cube` example, the code prints `0 0 0` (vertex 0) as the normal. The corrected saver prints `0 0 1`. The other lines agree. |
| SaverStl.NormalReadOutOfRange | src/io/SaverStl.cpp:51 | Take any triangle whose corners lie inside a nine-entry `coord`, repeated as four faces. The normal line of face 3 reads `coord[9..11]`, past the end. With one normal per face, the corrected file reads everything in range. |
| SaverStl.SaveCorrected | src/io/SaverStl.cpp:82-97 | As `Save`, with condition 5 (one normal triple per face) also checked before `fopen`. |
| SaverStl.CorrectedNormals | src/io/SaverStl.cpp:49-52 | In the corrected file, facet `i`'s normal is triple `i` of the normal array, read in range. |
| SaverStl.CorrectedReadsInRange | src/io/SaverStl.cpp:51-58 | In the corrected file, when every corner names an existing vertex, every number was read in range. |
| SaverStl.At | src/io/SaverStl.cpp:51-58 | A `vector<float>` read yields the number stored at the index exactly when the index lies inside the array. Otherwise it yields `OutOfRange` of that index. |
| SaverStl.IsTriangleMesh | src/io/SaverStl.cpp:95 | No contract of its own: the predicate says every face has three corners. `Save` and `Eligible` state its place in the gate, and `SaveFacets` states that every written facet has three corners. |
| SaverStl.SolidName | src/io/SaverStl.cpp:101-105 | No contract of its own. `SaveHeader` states which name ends up on the `solid` line, and `StemOfPath` states what the stem of a path is. |
| SaverStl.FacetAsWritten | src/io/SaverStl.cpp:48-64 | No contract of its own. `SaveFacets` and `NormalIsVertexPosition` state the normal and corners of each facet, and `NormalsNeverRead` states that `normals` is unused. |
| SaverStl.FacetsAsWritten | src/io/SaverStl.cpp:110-113 | No contract of its own. `SaveFacets` and `SaveBlocks` state that the file holds one facet per face, in face order. |
| SaverStl.CornerWrites | src/io/SaverStl.cpp:54-61 | No contract of its own: these are the `fprintf` calls of the corner loop. `CornerWritesText` states that, joined, they are the text of the `vertex` lines. |
| SaverStl.SaveFaceWrites | src/io/SaverStl.cpp:49-63 | No contract of its own: these are the `fprintf` calls of `saveFace_`. `SaveFaceWritesText` states that, joined, they are the text of the seven-line block. |
| SaverStl.FaceLoopWrites | src/io/SaverStl.cpp:110-113 | No contract of its own: these are the `fprintf` calls of the first `n` rounds of the face loop. `FaceLoopWritesText` states their text. |
| SaverStl.SaveWrites | src/io/SaverStl.cpp:106-113 | No contract of its own: this is the header `fprintf`, whose `%s` stops at the name's first NUL (`StlGrammar.CString`), followed by the face loop. `SaveWritesText` states that, joined, these calls are the text of the file's lines. |
| FaceTopology.FaceCount | src/io/SaverStl.cpp:110 | No contract of its own: `getNumberOfFaces`. `FaceCountBySentinels` counts the faces by sentinels, and `BuildFaces` states that the count is the number of recorded windows. |
| FaceTopology.FaceSize | src/io/SaverStl.cpp:54 | No contract of its own: `getFaceSize`. `BuildFaces` states that it is the size of the face's recorded window. |
| FaceTopology.FaceVertex | src/io/SaverStl.cpp:56 | No contract of its own: `getFaceVertex`. `BuildFaces` states that it is the entry at that offset of the face's window in the shared array. |
| StlGrammar.CString | src/io/SaverStl.cpp:106 | `%s` of `name.c_str()` prints a prefix of the name that holds no NUL, and stops either at the end of the name or at a NUL. |
| StlGrammar.CStringWhole | src/io/SaverStl.cpp:106 | A name is printed whole exactly when it holds no NUL. Otherwise it is printed up to its first NUL. |
| StlGrammar.Encode | src/io/SaverStl.cpp:106-113 | No contract of its own: the `solid` line, then the facet blocks. `DecodeEncode` gives its inverse, and `EncodeTriangles` gives its line layout. |
| StlGrammar.FacetLines | src/io/SaverStl.cpp:49-63 | No contract of its own: one facet's block. `TriangleLines` states the seven lines of a triangle's block. |
| StlGrammar.FacetsLines | src/io/SaverStl.cpp:110-113 | No contract of its own: the blocks of the face loop, in order. `TriangleBlocks` places block `i` at offset `7i`, and `DecodeFacets` reads the blocks back. |
| StlGrammar.VertexLines | src/io/SaverStl.cpp:54-61 | No contract of its own: one `vertex` line per corner. `TakeVertices` reads the lines back, and `TriangleLines` gives the three lines of a triangle. |
| StlGrammar.LineText | src/io/SaverStl.cpp:49-63 | No contract of its own: the literal text of each line kind (`solid `, `facet normal `, `  outer loop`, `    vertex `, `  endloop`, `endfacet`). `SaveFaceWritesText` and `SaveWritesText` prove that it matches the `fprintf` calls. |
| StlGrammar.Text | src/io/SaverStl.cpp:49-63 | No contract of its own: every line followed by a newline. `TextAppend` shows that it distributes over concatenation, and `SaveWritesText` equates it with the writes. |
| StlGrammar.TripleText | src/io/SaverStl.cpp:50-52 | No contract of its own: three numbers, each followed by a space. `TripleWritesText` equates it with the three `"%f "` calls. |
| SaverStl.Printed | src/io/SaverStl.cpp:51 | No contract of its own: one `"%f "` call, that is, the number's text and a space. `TripleWritesText` states its use. |
| SaverStl.TripleWrites | src/io/SaverStl.cpp:50-52 | No contract of its own: the three `"%f "` calls of one triple. `TripleWritesText` states that, joined, they are `TripleText`. |
| SaverStl.CornerTriples | src/io/SaverStl.cpp:56-58 | No contract of its own: the position read for each corner. `SaveFacets` states that corner `j` is the triple of `getFaceVertex(i, j)`. |
| SaverStl.HasFaceNormals | src/io/SaverStl.cpp:83 | No contract of its own: condition 5, one normal triple per face. `SaveCorrected` checks it before `fopen`, and `PerFaceNormalsNotChecked` shows that `Save` does not. |
| SaverStl.FacetCorrected | src/io/SaverStl.cpp:49-52 | No contract of its own: the as-written facet with the normal taken from normal triple `iF`. `CorrectedNormals` states the result. |
| SaverStl.FacetsCorrected | src/io/SaverStl.cpp:110-113 | No contract of its own: the corrected facet of every face, in order. `CorrectedNormals` and `CorrectedReadsInRange` state its contents. |
| PathNames.LastIndexOf | src/io/SaverStl.cpp:103-104 | The result is the last position holding the character, or -1 when there is none. |
| PathNames.FileName | src/io/SaverStl.cpp:103-104 | The file name is a suffix of the path with no `/` in it, and it is preceded by a `/` when it is shorter than the path. |
| PathNames.Stem | src/io/SaverStl.cpp:103-104 | The stem is a prefix of the file name and has no `/` in it. `StemWhole` and `StemBeforeExtension` state which prefix. |
| PathNames.NameStem | src/io/SaverStl.cpp:103-104 | The stem of a file name is a prefix of it. `Stem` applies it to the last component of the path. `StemWhole` and `StemBeforeExtension` state which prefix. |
| PathNames.StemWhole | src/io/SaverStl.cpp:103-104 | A file name with no extension is its own stem. This covers `.`, `..`, and names with no dot after the first character, such as `out` or `.hidden`. |
| PathNames.StemBeforeExtension | src/io/SaverStl.cpp:103-104 | A file name with an extension has the part before its last dot as its stem, and that part is not empty. |
| PathNames.StemOfPath | src/io/SaverStl.cpp:103-104 | Take a directory (empty or ending in `/`), a base name and an extension without dots. The stem of the joined path is the base name. |
| FaceTopology.Split | src/io/SaverStl.cpp:107 | No face contains the sentinel. |
| FaceTopology.Flatten | src/io/SaverStl.cpp:107 | Writing faces back gives an array that is empty or ends with -1. |
| FaceTopology.SplitFlatten | src/io/SaverStl.cpp:107 | Splitting the flattened faces gives the faces back. |
| FaceTopology.FlattenSplit | src/io/SaverStl.cpp:107 | Flattening the faces of an array gives the array back. When the array did not end in -1, the result gains one final -1. |
| FaceTopology.SplitAppend | src/io/SaverStl.cpp:107 | Splitting distributes over concatenation after a terminated prefix. |
| FaceTopology.FaceCountBySentinels | src/io/SaverStl.cpp:110 | The number of faces is the number of -1 entries, plus one when a non-empty run follows the last -1. |
| FaceTopology.BuildFaces | src/io/SaverStl.cpp:54-56 | The scan's windows are the faces of `Split`. So `getNumberOfFaces`, `getFaceSize` and `getFaceVertex` are direct lookups into the recorded windows. |
| StlGrammar.Decode | src/io/SaverStl.cpp:49-63 | Every document the decoder accepts encodes back to exactly the given lines. |
| StlGrammar.DecodeEncode | src/io/SaverStl.cpp:49-63 | Decoding an encoded document gives the document back. |
| StlGrammar.TakeVertices | src/io/SaverStl.cpp:54-61 | The leading `vertex` lines and the rest make up the input, and the rest does not start with a `vertex` line. |
| StlGrammar.DecodeFacets | src/io/SaverStl.cpp:49-63 | Accepted lines are exactly the blocks of the decoded facets. |
| StlGrammar.TriangleLines | src/io/SaverStl.cpp:49-63 | A triangle's block is the seven lines `facet normal`, `outer loop`, three `vertex`, `endloop`, `endfacet`. |
| StlGrammar.TriangleBlocks | src/io/SaverStl.cpp:110-113 | Triangle blocks are seven lines each, back to back, in facet order. |
| StlGrammar.EncodeTriangles | src/io/SaverStl.cpp:106-113 | A document of triangles has one header and seven lines per facet. Block `i` starts at line `1 + 7i`, and the file ends with the last `endfacet`. |
| StlGrammar.EncodeDefined | src/io/SaverStl.cpp:51-58 | A document whose numbers were all read in range has a text. |
| StlGrammar.TextAppend | src/io/SaverStl.cpp:106 | The text of two line lists, one after the other, is the joined text. |

## Left out

- SaverStl.SaveBlocks: counts `Line` values, not text lines. A `'\n'` in the solid name splits the header into two text lines. A POSIX file name, and so a stem, may hold one. The file then has more text lines than 1 + 7·n.
- SaverStl.SaveWritesText: a Dafny `char` stands for one byte of the `std::string` or the path. No character encoding is modelled.
- SaverStl.Save: the file name is a C string, so it holds no NUL. A Dafny file name holding one has no counterpart in the source, and its stem is taken from the whole string.
- File I/O: `fopen`, `fprintf` and `fclose` are not performed. The file is the returned line list, and the characters are what the `fprintf` calls would pass. The result of `fopen` is the parameter `opens`. The source ignores what `fprintf` and `fclose` return and reports success once the file is open, and so does the model: `Save` succeeds exactly when `opens` holds. What a failed write leaves in the file is not modelled.
- `%f` formatting and floating point: every number is the text `%f` prints for it, taken as given.
- Undefined behaviour: an out-of-range `vector<float>` read is recorded as `OutOfRange(index)` instead of a number. The model does not predict what the program does in that case.
- A `Shape` whose geometry is null: the code dereferences the null pointer. In the model a shape always has a geometry.
- The `Faces` class and `IndexedFaceSet::isTriangleMesh` are not part of this model. Their behaviour is assumed as described above. The corner count given to `Faces` is assumed to equal the length of the corner-index array.
- SaverStl.At: index arithmetic is unbounded. The source computes `iF*3+i` and `corner*3+j` in 32-bit `int` (src/io/SaverStl.cpp:51, 58). An index whose triple exceeds `INT_MAX` overflows there, which is undefined behaviour. The model does not cover that case: it reads at the mathematical index. "In range" in `TripleAt`, `SaveDefinedIff` and `CorrectedReadsInRange` refers to that mathematical index.
- PathNames.Stem: models `path::stem` on POSIX paths with `/` as the only separator. A trailing `/` gives an empty file name and so an empty stem, as `path::stem` does. It does not model root names, or the separators and special forms other platforms allow.
- Scene-graph construction, node casts, `Appearance` and `Material`: the scene graph is a tagged datatype, and nodes other than a `Shape` are opaque.
- Memory ownership: `Faces` is a value and owns no memory.

## Findings

| source | as written | input that shows it | evidently intended | confidence | as-written member | corrected member |
|---|---|---|---|---|---|---|
| src/io/SaverStl.cpp:51 | The `facet normal` line of face `iF` prints `vertexs[iF*3+i]`, the position of vertex `iF`. The `normals` argument is never read. | The one-triangle `cube`: vertices `(0,0,0)`, `(1,0,0)`, `(0,1,0)`, corners `[0,1,2,-1]`, normal `(0,0,1)`. The file says `facet normal 0 0 0`. | Print triple `iF` of the normal array: `normals[iF*3+i]`. | high (not executed) | SaverStl.ExampleNormalIsFirstVertex | SaverStl.CorrectedNormals |
| src/io/SaverStl.cpp:51 | The same read goes past the end of `coord` whenever there are more faces than vertices, even though every corner is in range. | Four copies of any in-range triangle, e.g. `0,1,2`, over three vertices (9 coordinates). Face 3's normal reads `coord[9..11]`. | Read from the normal array, which has one triple per face. | high (not executed) | SaverStl.NormalReadOutOfRange | SaverStl.CorrectedReadsInRange |
| src/io/SaverStl.cpp:83-95 | Condition 5 of the comment (normals per face) is listed but not checked. | Any single triangle, e.g. `[0,1,2,-1]`, with an empty normal array is written and `save` returns true. | Refuse, before `fopen`, a mesh without one normal triple per face. | medium (not executed) | SaverStl.PerFaceNormalsNotChecked | SaverStl.SaveCorrected |
