/**
 * The glyph-merging walk of `update_text_meshes`, as a specification.
 *
 * `Layout` replays the walk one character at a time (the state after a prefix of
 * the text); `Cursor`, `Placements` and `Count` describe the same result directly
 * (the cursor as a sum of per-character advances; the merged buffers as the
 * successful fragments laid side by side). The lemmas connect the two.
 */
module MeshAssembly {
  import opened Geometry
  import opened GlyphProvider

  /** Cursor advance for a whitespace character that the font has no glyph for. */
  const WhitespaceFallbackAdvance: real := 0.3

  /** The walk's state: the three growing buffers, the cursor and the running vertex count. */
  datatype Assembly = Assembly(
    vertices: seq<Vec3>,
    normals: seq<Vec3>,
    indices: seq<nat>,
    cursor: real,
    indexOffset: nat)

  /** Empty buffers, cursor at 0, no vertices appended yet. */
  const Start: Assembly := Assembly([], [], [], 0.0, 0)

  /** How far a whitespace character moves the cursor: its glyph's advance, else the fallback. */
  function WhitespaceAdvance(font: Font, ch: char): real
  {
    match font.advance(ch)
    case Some(a) => a
    case None => WhitespaceFallbackAdvance
  }

  /** How far a successfully meshed character moves the cursor: its glyph's advance, else nothing. */
  function GlyphAdvance(font: Font, ch: char): real
  {
    match font.advance(ch)
    case Some(a) => a
    case None => 0.0
  }

  /** `vs`, each moved along x by `dx`. */
  function Shifted(vs: seq<Vec3>, dx: real): seq<Vec3>
  {
    seq(|vs|, k requires 0 <= k < |vs| => ShiftX(vs[k], dx))
  }

  /** `ids`, each increased by `base`. */
  function Rebased(ids: seq<nat>, base: nat): seq<nat>
  {
    seq(|ids|, k requires 0 <= k < |ids| => ids[k] + base)
  }

  /** One iteration of the character loop. */
  function Step(font: Font, style: TextMeshStyle, a: Assembly, ch: char): Assembly
  {
    if IsWhitespace(ch) then
      a.(cursor := a.cursor + WhitespaceAdvance(font, ch))
    else
      match MeshFor(font, style, ch)
      case None => a
      case Some(f) =>
        Assembly(
          a.vertices + Shifted(f.vertices, a.cursor),
          a.normals + f.normals,
          a.indices + Rebased(f.indices, a.indexOffset),
          a.cursor + GlyphAdvance(font, ch),
          a.indexOffset + |f.vertices|)
  }

  /**
   * The state after walking all of `text`. Its running vertex count always equals
   * the number of vertices appended so far.
   */
  function Layout(font: Font, style: TextMeshStyle, text: string): (r: Assembly)
    ensures r.indexOffset == |r.vertices|
    decreases |text|
  {
    if text == [] then Start
    else Step(font, style, Layout(font, style, text[..|text| - 1]), text[|text| - 1])
  }

  // ---------------------------------------------------------------------------
  // A direct description of the result

  /** The fragment a character contributes to the merged mesh: none for whitespace. */
  function Emitted(font: Font, style: TextMeshStyle, ch: char): Option<Fragment>
  {
    if IsWhitespace(ch) then None else MeshFor(font, style, ch)
  }

  /** How far one character moves the cursor. */
  function Contribution(font: Font, style: TextMeshStyle, ch: char): real
  {
    if IsWhitespace(ch) then WhitespaceAdvance(font, ch)
    else if Emitted(font, style, ch).Some? then GlyphAdvance(font, ch)
    else 0.0
  }

  /** The cursor after `text`: the sum of the contributions of its characters. */
  function Cursor(font: Font, style: TextMeshStyle, text: string): real
    decreases |text|
  {
    if text == [] then 0.0
    else Contribution(font, style, text[0]) + Cursor(font, style, text[1..])
  }

  /** A fragment that was merged, with the cursor it was placed at. */
  datatype Placed = Placed(fragment: Fragment, x: real)

  /** The merged fragments of `text`, in text order, each at the cursor reached before its character. */
  function Placements(font: Font, style: TextMeshStyle, text: string): seq<Placed>
    decreases |text|
  {
    if text == [] then []
    else
      var init, ch := text[..|text| - 1], text[|text| - 1];
      Placements(font, style, init)
      + match Emitted(font, style, ch)
        case Some(f) => [Placed(f, Cursor(font, style, init))]
        case None => []
  }

  /** The three buffers of a fragment. */
  datatype Part = VertexPart | NormalPart | IndexPart

  function Size(f: Fragment, part: Part): nat
  {
    match part
    case VertexPart => |f.vertices|
    case NormalPart => |f.normals|
    case IndexPart => |f.indices|
  }

  /** Total length of one buffer over the placed fragments `ps`. */
  function Count(ps: seq<Placed>, part: Part): nat
    decreases |ps|
  {
    if ps == [] then 0
    else Count(ps[..|ps| - 1], part) + Size(ps[|ps| - 1].fragment, part)
  }

  /** Every fragment the characters of `text` contribute has only in-range local indices. */
  predicate FragmentsWellIndexed(font: Font, style: TextMeshStyle, text: string)
  {
    forall ch :: ch in text && Emitted(font, style, ch).Some? ==> WellIndexed(Emitted(font, style, ch).value)
  }

  /** Every fragment the characters of `text` contribute has one normal per vertex. */
  predicate FragmentsNormalPerVertex(font: Font, style: TextMeshStyle, text: string)
  {
    forall ch :: ch in text && Emitted(font, style, ch).Some? ==> NormalPerVertex(Emitted(font, style, ch).value)
  }
}
