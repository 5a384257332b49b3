/**
 * The interface the mesh assembler consumes from the font library: a parsed
 * font answers, for each character, whether it has a glyph (and that glyph's
 * horizontal advance) and, at a given subdivision quality and extrusion depth,
 * whether the glyph can be turned into a 3D fragment. The library itself is not
 * part of this model; a font is just these two deterministic functions.
 */
module GlyphProvider {
  import opened Geometry

  /** An unsigned 8-bit integer, as used for the subdivision quality and for raw font bytes. */
  newtype u8 = x: int | 0 <= x < 256

  /** The style fields the assembler reads: extrusion depth and curve subdivisions. */
  datatype TextMeshStyle = TextMeshStyle(depth: real, quality: u8)

  /**
   * A parsed font.
   * `advance(ch)` is `Some(a)` when the glyph lookup for `ch` succeeds and the glyph's advance is `a`.
   * `mesh(ch, quality, depth)` is `Some(f)` when the lookup succeeds and meshing the glyph
   * with `quality` subdivisions and extrusion `depth` yields `f`; `None` stands for either failure.
   */
  datatype Font = Font(advance: char -> Option<real>, mesh: (char, u8, real) -> Option<Fragment>)

  /**
   * Rust's `char::is_whitespace`: the code points with the Unicode White_Space property.
   */
  predicate IsWhitespace(ch: char)
  {
    var n := ch as int;
    (0x09 <= n <= 0x0D) || n == 0x20 || n == 0x85 || n == 0xA0 || n == 0x1680
    || (0x2000 <= n <= 0x200A) || n == 0x2028 || n == 0x2029 || n == 0x202F
    || n == 0x205F || n == 0x3000
  }

  /** The fragment a character meshes to under `style`, if the lookup and the meshing succeed. */
  function MeshFor(font: Font, style: TextMeshStyle, ch: char): Option<Fragment>
  {
    font.mesh(ch, style.quality, style.depth)
  }
}
