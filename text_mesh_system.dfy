/**
 * The per-entity body of the `update_text_meshes` system: resolve the font,
 * walk the text merging glyph fragments into one vertex/normal/index buffer,
 * and mark the entity computed.
 */
module TextMeshSystem {
  import opened Geometry
  import opened GlyphProvider
  import opened MeshAssembly
  import opened AssemblyProperties

  /** The component's fields the system reads (the font handle is resolved by the caller). */
  datatype TextMesh = TextMesh(text: string, style: TextMeshStyle)

  /** The merged mesh handed to the renderer. */
  datatype MeshData = MeshData(positions: seq<Vec3>, normals: seq<Vec3>, indices: seq<nat>)

  /**
   * What one pass does for one entity: nothing yet because the font asset is not
   * loaded, nothing because its bytes do not parse, or a new mesh (and the entity
   * is marked computed, so it is not revisited until its component changes).
   */
  datatype Outcome = FontNotLoaded | FontParseFailed | Computed(mesh: MeshData)

  /** Pushes each fragment vertex, moved along x by `offset`, onto `vertices`. */
  method PushShiftedVertices(vertices: seq<Vec3>, fragment: seq<Vec3>, offset: real) returns (r: seq<Vec3>)
    ensures r == vertices + Shifted(fragment, offset)
  {
    r := vertices;
    for k := 0 to |fragment|
      invariant r == vertices + Shifted(fragment[..k], offset)
    {
      assert fragment[..k + 1] == fragment[..k] + [fragment[k]];
      r := r + [ShiftX(fragment[k], offset)];
    }
    assert fragment[..|fragment|] == fragment;
  }

  /** Pushes each fragment normal, unchanged, onto `normals`. */
  method PushNormals(normals: seq<Vec3>, fragment: seq<Vec3>) returns (r: seq<Vec3>)
    ensures r == normals + fragment
  {
    r := normals;
    for k := 0 to |fragment|
      invariant r == normals + fragment[..k]
    {
      assert fragment[..k + 1] == fragment[..k] + [fragment[k]];
      r := r + [fragment[k]];
    }
    assert fragment[..|fragment|] == fragment;
  }

  /** Pushes each fragment index, increased by `indexOffset`, onto `indices`. */
  method PushRebasedIndices(indices: seq<nat>, fragment: seq<nat>, indexOffset: nat) returns (r: seq<nat>)
    ensures r == indices + Rebased(fragment, indexOffset)
  {
    r := indices;
    for k := 0 to |fragment|
      invariant r == indices + Rebased(fragment[..k], indexOffset)
    {
      assert fragment[..k + 1] == fragment[..k] + [fragment[k]];
      r := r + [fragment[k] + indexOffset];
    }
    assert fragment[..|fragment|] == fragment;
  }

  /**
   * The character loop: whitespace moves the cursor only; a character that meshes
   * appends its vertices moved along x by the cursor, its normals, and its indices
   * rebased by the vertices appended so far, then moves the cursor by its advance;
   * any other character is skipped.
   */
  method AssembleTextMesh(font: Font, style: TextMeshStyle, text: string)
    returns (vertices: seq<Vec3>, normals: seq<Vec3>, indices: seq<nat>)
    ensures var a := Layout(font, style, text);
      vertices == a.vertices && normals == a.normals && indices == a.indices
    ensures FragmentsWellIndexed(font, style, text) ==>
      forall i :: 0 <= i < |indices| ==> indices[i] < |vertices|
    ensures FragmentsNormalPerVertex(font, style, text) ==> |normals| == |vertices|
  {
    vertices, normals, indices := [], [], [];
    var currentOffset: real := 0.0;
    var indexOffset: nat := 0;
    for n := 0 to |text|
      invariant Layout(font, style, text[..n])
        == Assembly(vertices, normals, indices, currentOffset, indexOffset)
    {
      var ch := text[n];
      assert text[..n + 1] == text[..n] + [ch];
      LayoutSnoc(font, style, text[..n], ch);
      if IsWhitespace(ch) {
        match font.advance(ch) {
          case Some(a) => currentOffset := currentOffset + a;
          case None => currentOffset := currentOffset + WhitespaceFallbackAdvance;
        }
        continue;
      }
      match font.mesh(ch, style.quality, style.depth) {
        case Some(mesh) =>
          vertices := PushShiftedVertices(vertices, mesh.vertices, currentOffset);
          normals := PushNormals(normals, mesh.normals);
          indices := PushRebasedIndices(indices, mesh.indices, indexOffset);
          indexOffset := indexOffset + |mesh.vertices|;
          match font.advance(ch) {
            case Some(a) => currentOffset := currentOffset + a;
            case None =>
          }
        case None =>
      }
    }
    assert text[..|text|] == text;
    if FragmentsWellIndexed(font, style, text) {
      IndicesInBounds(font, style, text);
    }
    if FragmentsNormalPerVertex(font, style, text) {
      NormalsMatchVertices(font, style, text);
    }
  }

  /**
   * One pass of the system for one entity. `fontData` is the font asset's bytes if
   * it has loaded; `parse` stands for the font library's parser.
   */
  method UpdateTextMesh(fontData: Option<seq<u8>>, parse: seq<u8> -> Option<Font>, textMesh: TextMesh)
    returns (outcome: Outcome)
    ensures outcome.FontNotLoaded? <==> fontData.None?
    ensures outcome.FontParseFailed? <==> fontData.Some? && parse(fontData.value).None?
    ensures outcome.Computed? ==>
      fontData.Some? && parse(fontData.value).Some?
      && var a := Layout(parse(fontData.value).value, textMesh.style, textMesh.text);
         outcome.mesh == MeshData(a.vertices, a.normals, a.indices)
  {
    if fontData.None? {
      return FontNotLoaded;
    }
    var parsed := parse(fontData.value);
    if parsed.None? {
      return FontParseFailed;
    }
    var vertices, normals, indices := AssembleTextMesh(parsed.value, textMesh.style, textMesh.text);
    outcome := Computed(MeshData(vertices, normals, indices));
  }
}
