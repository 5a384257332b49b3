/** What the glyph-merging walk guarantees about the mesh it assembles. */
module AssemblyProperties {
  import opened Geometry
  import opened GlyphProvider
  import opened MeshAssembly

  /** Walking one more character is one more step. */
  lemma LayoutSnoc(font: Font, style: TextMeshStyle, s: string, ch: char)
    ensures Layout(font, style, s + [ch]) == Step(font, style, Layout(font, style, s), ch)
  {
    assert (s + [ch])[..|s|] == s;
  }

  /** Walking one more character adds at most its own fragment to the placements. */
  lemma PlacementsSnoc(font: Font, style: TextMeshStyle, s: string, ch: char)
    ensures Placements(font, style, s + [ch])
      == Placements(font, style, s)
         + match Emitted(font, style, ch)
           case Some(f) => [Placed(f, Cursor(font, style, s))]
           case None => []
  {
    assert (s + [ch])[..|s|] == s;
  }

  /** The cursor sum can be extended at the end. */
  lemma {:induction false} CursorSnoc(font: Font, style: TextMeshStyle, s: string, ch: char)
    ensures Cursor(font, style, s + [ch]) == Cursor(font, style, s) + Contribution(font, style, ch)
    decreases |s|
  {
    if s == [] {
      assert [ch][1..] == [];
    } else {
      assert (s + [ch])[1..] == s[1..] + [ch];
      CursorSnoc(font, style, s[1..], ch);
    }
  }

  /** The cursor after the walk is the sum of the advances of the whitespace and merged characters. */
  lemma {:induction false} LayoutCursor(font: Font, style: TextMeshStyle, text: string)
    ensures Layout(font, style, text).cursor == Cursor(font, style, text)
    decreases |text|
  {
    if text != [] {
      var s, ch := text[..|text| - 1], text[|text| - 1];
      assert text == s + [ch];
      LayoutCursor(font, style, s);
      LayoutSnoc(font, style, s, ch);
      CursorSnoc(font, style, s, ch);
    }
  }

  /** What the last character does to the buffers and to the placements, in terms of the fragment it contributes. */
  lemma MergeLast(font: Font, style: TextMeshStyle, text: string)
    requires text != []
    ensures var s, ch := text[..|text| - 1], text[|text| - 1];
      var a0, a := Layout(font, style, s), Layout(font, style, text);
      var ps0, ps := Placements(font, style, s), Placements(font, style, text);
      match Emitted(font, style, ch)
      case None =>
        a.vertices == a0.vertices && a.normals == a0.normals && a.indices == a0.indices && ps == ps0
      case Some(f) =>
        a.vertices == a0.vertices + Shifted(f.vertices, a0.cursor)
        && a.normals == a0.normals + f.normals
        && a.indices == a0.indices + Rebased(f.indices, a0.indexOffset)
        && ps == ps0 + [Placed(f, a0.cursor)]
  {
    var s := text[..|text| - 1];
    LayoutCursor(font, style, s);
    if Emitted(font, style, text[|text| - 1]).None? {
      assert Placements(font, style, text) == Placements(font, style, s) + [];
    }
  }

  /** The three buffers are exactly as long as the merged fragments' buffers together. */
  lemma {:induction false} LayoutSizes(font: Font, style: TextMeshStyle, text: string)
    ensures var a, ps := Layout(font, style, text), Placements(font, style, text);
      |a.vertices| == Count(ps, VertexPart) && |a.normals| == Count(ps, NormalPart)
      && |a.indices| == Count(ps, IndexPart)
    decreases |text|
  {
    if text != [] {
      var s, ch := text[..|text| - 1], text[|text| - 1];
      assert text == s + [ch];
      LayoutSizes(font, style, s);
      LayoutSnoc(font, style, s, ch);
      PlacementsSnoc(font, style, s, ch);
      var ps := Placements(font, style, text);
      match Emitted(font, style, ch)
      case None =>
        assert ps == Placements(font, style, s) + [];
        assert ps == Placements(font, style, s);
      case Some(f) =>
        assert ps[..|ps| - 1] == Placements(font, style, s);
        assert Size(ps[|ps| - 1].fragment, VertexPart) == |f.vertices|;
    }
  }

  /** Appending fragment `f` at `x` extends the vertex correspondence from `ps0` to `ps0 + [Placed(f, x)]`. */
  lemma AppendVertexAt(vs0: seq<Vec3>, ps0: seq<Placed>, f: Fragment, x: real, k: nat, j: nat)
    requires |vs0| == Count(ps0, VertexPart)
    requires k <= |ps0| && j < |(ps0 + [Placed(f, x)])[k].fragment.vertices|
    requires k < |ps0| ==>
      Count(ps0[..k], VertexPart) + j < |vs0|
      && vs0[Count(ps0[..k], VertexPart) + j] == ShiftX(ps0[k].fragment.vertices[j], ps0[k].x)
    ensures var ps, vs := ps0 + [Placed(f, x)], vs0 + Shifted(f.vertices, x);
      Count(ps[..k], VertexPart) + j < |vs|
      && vs[Count(ps[..k], VertexPart) + j] == ShiftX(ps[k].fragment.vertices[j], ps[k].x)
  {
    var ps := ps0 + [Placed(f, x)];
    if k < |ps0| {
      assert ps[..k] == ps0[..k] && ps[k] == ps0[k];
    } else {
      assert ps[..k] == ps0;
    }
  }

  /** Appending fragment `f` extends the normal correspondence from `ps0` to `ps0 + [Placed(f, x)]`. */
  lemma AppendNormalAt(ns0: seq<Vec3>, ps0: seq<Placed>, f: Fragment, x: real, k: nat, j: nat)
    requires |ns0| == Count(ps0, NormalPart)
    requires k <= |ps0| && j < |(ps0 + [Placed(f, x)])[k].fragment.normals|
    requires k < |ps0| ==>
      Count(ps0[..k], NormalPart) + j < |ns0|
      && ns0[Count(ps0[..k], NormalPart) + j] == ps0[k].fragment.normals[j]
    ensures var ps, ns := ps0 + [Placed(f, x)], ns0 + f.normals;
      Count(ps[..k], NormalPart) + j < |ns|
      && ns[Count(ps[..k], NormalPart) + j] == ps[k].fragment.normals[j]
  {
    var ps := ps0 + [Placed(f, x)];
    if k < |ps0| {
      assert ps[..k] == ps0[..k] && ps[k] == ps0[k];
    } else {
      assert ps[..k] == ps0;
    }
  }

  /** Appending fragment `f` extends the index correspondence from `ps0` to `ps0 + [Placed(f, x)]`. */
  lemma AppendIndexAt(ids0: seq<nat>, ps0: seq<Placed>, f: Fragment, x: real, k: nat, j: nat)
    requires |ids0| == Count(ps0, IndexPart)
    requires k <= |ps0| && j < |(ps0 + [Placed(f, x)])[k].fragment.indices|
    requires k < |ps0| ==>
      Count(ps0[..k], IndexPart) + j < |ids0|
      && ids0[Count(ps0[..k], IndexPart) + j] == ps0[k].fragment.indices[j] + Count(ps0[..k], VertexPart)
    ensures var ps, ids := ps0 + [Placed(f, x)], ids0 + Rebased(f.indices, Count(ps0, VertexPart));
      Count(ps[..k], IndexPart) + j < |ids|
      && ids[Count(ps[..k], IndexPart) + j] == ps[k].fragment.indices[j] + Count(ps[..k], VertexPart)
  {
    var ps := ps0 + [Placed(f, x)];
    if k < |ps0| {
      assert ps[..k] == ps0[..k] && ps[k] == ps0[k];
    } else {
      assert ps[..k] == ps0;
    }
  }

  /**
   * Vertex `j` of the `k`-th merged fragment sits right after the vertices of the
   * fragments merged before it, moved along x by the cursor reached before its character.
   */
  lemma {:induction false} LayoutVertexAt(font: Font, style: TextMeshStyle, text: string, k: nat, j: nat)
    requires k < |Placements(font, style, text)|
    requires j < |Placements(font, style, text)[k].fragment.vertices|
    ensures var buf, ps := Layout(font, style, text).vertices, Placements(font, style, text);
      Count(ps[..k], VertexPart) + j < |buf|
      && buf[Count(ps[..k], VertexPart) + j] == ShiftX(ps[k].fragment.vertices[j], ps[k].x)
    decreases |text|
  {
    var s, ch := text[..|text| - 1], text[|text| - 1];
    MergeLast(font, style, text);
    LayoutSizes(font, style, s);
    var a0, ps0 := Layout(font, style, s), Placements(font, style, s);
    if k < |ps0| {
      LayoutVertexAt(font, style, s, k, j);
    }
    match Emitted(font, style, ch)
    case None =>
    case Some(f) =>
      AppendVertexAt(a0.vertices, ps0, f, a0.cursor, k, j);
  }

  /** Normal `j` of the `k`-th merged fragment is copied unchanged, right after the normals merged before it. */
  lemma {:induction false} LayoutNormalAt(font: Font, style: TextMeshStyle, text: string, k: nat, j: nat)
    requires k < |Placements(font, style, text)|
    requires j < |Placements(font, style, text)[k].fragment.normals|
    ensures var buf, ps := Layout(font, style, text).normals, Placements(font, style, text);
      Count(ps[..k], NormalPart) + j < |buf|
      && buf[Count(ps[..k], NormalPart) + j] == ps[k].fragment.normals[j]
    decreases |text|
  {
    var s, ch := text[..|text| - 1], text[|text| - 1];
    MergeLast(font, style, text);
    LayoutSizes(font, style, s);
    var a0, ps0 := Layout(font, style, s), Placements(font, style, s);
    if k < |ps0| {
      LayoutNormalAt(font, style, s, k, j);
    }
    match Emitted(font, style, ch)
    case None =>
    case Some(f) =>
      AppendNormalAt(a0.normals, ps0, f, a0.cursor, k, j);
  }

  /**
   * Index `j` of the `k`-th merged fragment is its local index plus the number of
   * vertices of all fragments merged before it, and sits right after the indices merged before it.
   */
  lemma {:induction false} LayoutIndexAt(font: Font, style: TextMeshStyle, text: string, k: nat, j: nat)
    requires k < |Placements(font, style, text)|
    requires j < |Placements(font, style, text)[k].fragment.indices|
    ensures var buf, ps := Layout(font, style, text).indices, Placements(font, style, text);
      Count(ps[..k], IndexPart) + j < |buf|
      && buf[Count(ps[..k], IndexPart) + j] == ps[k].fragment.indices[j] + Count(ps[..k], VertexPart)
    decreases |text|
  {
    var s, ch := text[..|text| - 1], text[|text| - 1];
    MergeLast(font, style, text);
    LayoutSizes(font, style, s);
    var a0, ps0 := Layout(font, style, s), Placements(font, style, s);
    if k < |ps0| {
      LayoutIndexAt(font, style, s, k, j);
    }
    match Emitted(font, style, ch)
    case None =>
    case Some(f) =>
      AppendIndexAt(a0.indices, ps0, f, a0.cursor, k, j);
  }

  /** When every contributed fragment is well indexed, every merged index names a merged vertex. */
  lemma {:induction false} IndicesInBounds(font: Font, style: TextMeshStyle, text: string)
    requires FragmentsWellIndexed(font, style, text)
    ensures var a := Layout(font, style, text);
      forall i :: 0 <= i < |a.indices| ==> a.indices[i] < |a.vertices|
    decreases |text|
  {
    if text != [] {
      var s, ch := text[..|text| - 1], text[|text| - 1];
      assert text == s + [ch];
      assert FragmentsWellIndexed(font, style, s) by {
        forall c | c in s ensures c in text { }
      }
      IndicesInBounds(font, style, s);
      LayoutSnoc(font, style, s, ch);
      var a0, a := Layout(font, style, s), Layout(font, style, text);
      match Emitted(font, style, ch)
      case None =>
      case Some(f) =>
        assert ch in text;
        assert WellIndexed(f);
        forall i | 0 <= i < |a.indices| ensures a.indices[i] < |a.vertices| {
          if i >= |a0.indices| {
            assert a.indices[i] == f.indices[i - |a0.indices|] + a0.indexOffset;
          }
        }
    }
  }

  /** When every contributed fragment has one normal per vertex, so has the merged mesh. */
  lemma {:induction false} NormalsMatchVertices(font: Font, style: TextMeshStyle, text: string)
    requires FragmentsNormalPerVertex(font, style, text)
    ensures |Layout(font, style, text).normals| == |Layout(font, style, text).vertices|
    decreases |text|
  {
    if text != [] {
      var s, ch := text[..|text| - 1], text[|text| - 1];
      assert text == s + [ch];
      assert FragmentsNormalPerVertex(font, style, s) by {
        forall c | c in s ensures c in text { }
      }
      NormalsMatchVertices(font, style, s);
      LayoutSnoc(font, style, s, ch);
      if Emitted(font, style, ch).Some? {
        assert ch in text;
      }
    }
  }

  /**
   * A whitespace character appends nothing; it moves the cursor by its glyph's
   * advance, or by exactly 0.3 when the font has no glyph for it.
   */
  lemma WhitespaceAppendsNothing(font: Font, style: TextMeshStyle, s: string, ch: char)
    requires IsWhitespace(ch)
    ensures var a, b := Layout(font, style, s), Layout(font, style, s + [ch]);
      b.vertices == a.vertices && b.normals == a.normals && b.indices == a.indices
      && b.indexOffset == a.indexOffset
      && b.cursor == a.cursor + (if font.advance(ch).Some? then font.advance(ch).value else 0.3)
  {
    LayoutSnoc(font, style, s, ch);
  }

  /** A non-whitespace character whose lookup or meshing fails changes nothing, not even the cursor. */
  lemma FailedCharSkipped(font: Font, style: TextMeshStyle, s: string, ch: char)
    requires !IsWhitespace(ch) && font.mesh(ch, style.quality, style.depth).None?
    ensures Layout(font, style, s + [ch]) == Layout(font, style, s)
  {
    LayoutSnoc(font, style, s, ch);
  }

  /** The walk depends on the text read so far only through its state. */
  lemma {:induction false} LayoutSameSuffix(font: Font, style: TextMeshStyle, x: string, y: string, rest: string)
    requires Layout(font, style, x) == Layout(font, style, y)
    ensures Layout(font, style, x + rest) == Layout(font, style, y + rest)
    decreases |rest|
  {
    if rest != [] {
      var r, ch := rest[..|rest| - 1], rest[|rest| - 1];
      assert x + rest == (x + r) + [ch];
      assert y + rest == (y + r) + [ch];
      LayoutSameSuffix(font, style, x, y, r);
      LayoutSnoc(font, style, x + r, ch);
      LayoutSnoc(font, style, y + r, ch);
    } else {
      assert x + rest == x && y + rest == y;
    }
  }

  /** A failed character anywhere in the text can be deleted without changing the mesh or the cursor. */
  lemma FailedCharInvisible(font: Font, style: TextMeshStyle, before: string, ch: char, after: string)
    requires !IsWhitespace(ch) && font.mesh(ch, style.quality, style.depth).None?
    ensures Layout(font, style, before + [ch] + after) == Layout(font, style, before + after)
  {
    FailedCharSkipped(font, style, before, ch);
    LayoutSameSuffix(font, style, before + [ch], before, after);
  }

  /** Two whitespace characters with the same advance are interchangeable anywhere in the text. */
  lemma WhitespaceInterchangeable(font: Font, style: TextMeshStyle, before: string, c1: char, c2: char, after: string)
    requires IsWhitespace(c1) && IsWhitespace(c2)
    requires WhitespaceAdvance(font, c1) == WhitespaceAdvance(font, c2)
    ensures Layout(font, style, before + [c1] + after) == Layout(font, style, before + [c2] + after)
  {
    LayoutSnoc(font, style, before, c1);
    LayoutSnoc(font, style, before, c2);
    LayoutSameSuffix(font, style, before + [c1], before + [c2], after);
  }
}
