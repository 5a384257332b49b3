# bevy_fontmesh: merging glyph meshes into one text mesh

`bevy_fontmesh` turns a `TextMesh` component (a string, a font asset and a style
with extrusion `depth` and curve `quality`) into one 3D mesh. The core of the
`update_text_meshes` system is a walk over the characters of the text. It keeps a
horizontal cursor (`current_offset`) and a running vertex count (`index_offset`),
and grows three buffers: positions, normals and triangle indices.

- A whitespace character moves the cursor by its glyph's advance. If the font has
  no glyph for it, the cursor moves by the fixed 0.3. It never adds geometry.
- A character the font can mesh appends the fragment's vertices moved along x by
  the cursor. It appends the fragment's normals unchanged. It appends the
  fragment's indices increased by the running vertex count. Then the vertex count
  grows by the fragment's vertex count and the cursor moves by the glyph's advance.
- Any other character is skipped: no geometry, no cursor movement.

The model has five modules:

- `Geometry` (`geometry.dfy`): `Vec3`, the per-character `Fragment` and its
  well-formedness predicates.
- `GlyphProvider` (`glyph_provider.dfy`): the font seen as two deterministic
  functions. `advance` gives a character's glyph advance, if the glyph exists.
  `mesh` gives the fragment for a character at a given quality and depth, if the
  lookup and the meshing succeed. It also holds the style and Rust's
  `char::is_whitespace` (the Unicode White_Space code points).
- `MeshAssembly` (`mesh_assembly.dfy`): the walk as a specification. `Layout`
  replays it one character at a time. `Cursor`, `Placements` and `Count` describe
  the result directly: the cursor as a sum of per-character advances, and the
  merged fragments in text order, each at the cursor reached before it.
- `AssemblyProperties` (`assembly_properties.dfy`): lemmas connecting the two
  descriptions, plus what the walk guarantees (index validity, normals per vertex,
  whitespace and failed characters).
- `TextMeshSystem` (`text_mesh_system.dfy`): the loop as an imperative method over
  growing sequences, proved equal to `Layout`. Each of the three inner push loops is a
  method of its own. Also one pass for one entity: skip
  when the font is not loaded or does not parse, otherwise build the mesh.

## Model

| member | source | states |
|---|---|---|
| `MeshAssembly.Layout` | src/system.rs:46-101 | the running vertex count after any prefix of the text equals the number of vertices appended so far |
| `TextMeshSystem.AssembleTextMesh` | src/system.rs:46-101 | the loop's buffers are those of the walk; if every fragment's indices are in range, every merged index is below the merged vertex count; if every fragment has one normal per vertex, so does the merged mesh |
| `TextMeshSystem.PushShiftedVertices` | src/system.rs:74-76 | the vertex buffer grows by the fragment's vertices, in order, each with x increased by the cursor |
| `TextMeshSystem.PushNormals` | src/system.rs:79-81 | the normal buffer grows by the fragment's normals, in order and unchanged |
| `TextMeshSystem.PushRebasedIndices` | src/system.rs:84-86 | the index buffer grows by the fragment's indices, in order, each increased by the running vertex count |
| `TextMeshSystem.UpdateTextMesh` | src/system.rs:23-117 | an entity is skipped exactly when its font is not loaded or fails to parse; otherwise it gets the mesh of the walk and is marked computed |
| `AssemblyProperties.LayoutCursor` | src/system.rs:52-94 | the cursor after the walk is the sum, over the characters, of the whitespace advance (glyph advance or 0.3), the glyph advance of each merged character, and 0 for skipped ones |
| `AssemblyProperties.LayoutSizes` | src/system.rs:74-86 | each merged buffer is exactly as long as the corresponding buffers of the merged fragments together |
| `AssemblyProperties.LayoutVertexAt` | src/system.rs:74-76 | vertex j of the k-th merged fragment lands right after the vertices of earlier fragments, with x increased by the cursor before its character and y, z unchanged |
| `AssemblyProperties.LayoutNormalAt` | src/system.rs:78-81 | normal j of the k-th merged fragment is copied unchanged, in order, right after the normals of earlier fragments |
| `AssemblyProperties.LayoutIndexAt` | src/system.rs:83-88 | index j of the k-th merged fragment is its local index plus the total vertex count of all earlier fragments |
| `AssemblyProperties.IndicesInBounds` | src/system.rs:74-88 | if every fragment's local indices are below its vertex count, every merged index is below the merged vertex count |
| `AssemblyProperties.NormalsMatchVertices` | src/system.rs:74-81 | if every fragment has as many normals as vertices, the merged mesh has as many normals as vertices |
| `AssemblyProperties.WhitespaceAppendsNothing` | src/system.rs:54-64 | a whitespace character leaves all three buffers and the vertex count unchanged and moves the cursor by its glyph's advance, or by exactly 0.3 without a glyph |
| `AssemblyProperties.FailedCharSkipped` | src/system.rs:66-99 | a non-whitespace character whose lookup or meshing fails leaves the whole state, cursor included, unchanged |
| `AssemblyProperties.LayoutSameSuffix` | src/system.rs:52-101 | the walk depends on the text read so far only through its state: equal states stay equal after any further text |
| `AssemblyProperties.FailedCharInvisible` | src/system.rs:96-99 | deleting a failed character anywhere in the text changes neither the mesh nor the cursor |
| `AssemblyProperties.WhitespaceInterchangeable` | src/system.rs:54-64 | two whitespace characters with the same advance can replace each other anywhere in the text without changing the mesh or the cursor |

## Left out

- Host framework plumbing: the ECS query and its change filter, `Commands`, `Assets<Mesh>`, `Mesh::new`, attribute insertion and handle assignment (src/system.rs:14-23, 103-113). `UpdateTextMesh` keeps only the outcome: skipped, or a mesh plus the "computed" mark.
- The `warn!` log on a parse failure (src/system.rs:40) is I/O.
- Font library internals (`Font::from_bytes`, `glyph_by_char`, `with_subdivisions(..).to_mesh_3d(..)`, `advance`) are calls into a crate that is not part of this model. They are abstract function parameters: `parse` for the parser, and `Font.advance` and `Font.mesh` for the glyph queries.
- f32 arithmetic: coordinates and the cursor are reals, so rounding in `v.x + current_offset` and in the cursor sums is not modelled.
- AssembleTextMesh: fragment indices and `index_offset` are unbounded naturals here, not u32, so the source's u32 arithmetic (`i + index_offset` at src/system.rs:85, `index_offset += len() as u32` at src/system.rs:88) is not modelled. For fragments whose local indices are below their vertex count, that arithmetic overflows only past 2^32 vertices. A local index i with i + index_offset ≥ 2^32 overflows sooner: a panic in debug builds, a wrap-around in release builds. `LayoutIndexAt` states the unbounded sum in that case too.
- The style's `color` field and the asset loader (src/asset.rs) are not modelled: the merge never reads them, and the loader is file I/O.
- Plugin registration (src/lib.rs:93-103) and the example scenes are host setup.
- Anchors, justification and multi-line text split on `\n` are advertised in the crate docs (src/lib.rs:41-43), re-exported at src/lib.rs:58-67 and used by the example scenes. Per-glyph meshes and the parsed-font cache appear in those re-exports. src/system.rs implements none of these, so they are not part of this model. There `\n` is whitespace and only moves the cursor, and the model does the same.
- Unmapped whitespace advances the cursor by the fixed 0.3 (src/system.rs:61), as modelled by `WhitespaceFallbackAdvance`; no font-metric-based width is computed.
