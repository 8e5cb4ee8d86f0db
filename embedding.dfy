/**
 * embed_text of embedding.py: the text is rendered into a grey-level raster
 * of the matrix's own height and width, the raster is flipped upside down,
 * and every matrix cell whose flipped pixel is set is overwritten, in place,
 * with one value. The TrueType rendering itself is a parameter.
 */
module Embedding {
  import opened Grids

  /** Where and how large the text is drawn: left_top and font_size. */
  datatype TextStyle = TextStyle(left: int, top: int, fontSize: int)

  /**
   * PIL's text drawing: given the canvas height and width, the text and the
   * style, the grey levels of the "L" image (0 is background). Drawing
   * outside the canvas is clipped by PIL.
   */
  type Renderer = (nat, nat, string, TextStyle) -> seq<seq<nat>>

  /** Image.new("L", (width, height)): every rendering has the canvas size it was asked for. */
  ghost predicate DrawsOnCanvas(render: Renderer) {
    forall height, width, text, style :: IsGrid(render(height, width, text, style), height, width)
  }

  /** np.where(np.flipud(raster) > 0), as a boolean grid. */
  function Mask(raster: seq<seq<nat>>): (mask: seq<seq<bool>>)
    ensures |mask| == |raster|
  {
    MapGrid(Reversed(raster), (pixel: nat) => pixel > 0)
  }

  /** mat[mask] = value: masked cells take the value, the others keep theirs. */
  function Stamp<T>(g: seq<seq<T>>, mask: seq<seq<bool>>, value: T): (r: seq<seq<T>>)
    requires |mask| == |g| && forall i :: 0 <= i < |g| ==> |mask[i]| == |g[i]|
    ensures |r| == |g| && forall i :: 0 <= i < |g| ==> |r[i]| == |g[i]|
  {
    seq(|g|, i requires 0 <= i < |g| =>
      seq(|g[i]|, j requires 0 <= j < |g[i]| => if mask[i][j] then value else g[i][j]))
  }

  /** The matrix embed_text leaves behind, for a matrix g of `width` columns. */
  function Embedded<T>(g: seq<seq<T>>, width: nat, text: string, value: T, style: TextStyle,
                       render: Renderer): (r: seq<seq<T>>)
    requires IsGrid(g, |g|, width) && DrawsOnCanvas(render)
    ensures IsGrid(r, |g|, width)
  {
    var raster := render(|g|, width, text, style);
    assert IsGrid(Reversed(raster), |g|, width);
    Stamp(g, Mask(raster), value)
  }

  /**
   * Cell (r, c) is overwritten exactly when raster pixel (height - 1 - r, c)
   * is set, the vertical flip; every other cell keeps its value.
   */
  lemma {:induction false} EmbeddedAt<T>(g: seq<seq<T>>, width: nat, text: string, value: T, style: TextStyle,
                                         render: Renderer, r: nat, c: nat)
    requires IsGrid(g, |g|, width) && DrawsOnCanvas(render)
    requires r < |g| && c < width
    ensures var raster := render(|g|, width, text, style);
      Embedded(g, width, text, value, style, render)[r][c] ==
        if raster[|g| - 1 - r][c] > 0 then value else g[r][c]
  {
    var raster := render(|g|, width, text, style);
    assert IsGrid(raster, |g|, width);
    assert Mask(raster)[r][c] == (raster[|g| - 1 - r][c] > 0);
  }

  /** Embedding the same text with the same arguments twice leaves what embedding it once does. */
  lemma {:induction false} EmbedIdempotent<T>(g: seq<seq<T>>, width: nat, text: string, value: T, style: TextStyle,
                                              render: Renderer)
    requires IsGrid(g, |g|, width) && DrawsOnCanvas(render)
    ensures var once := Embedded(g, width, text, value, style, render);
      Embedded(once, width, text, value, style, render) == once
  {
    var once := Embedded(g, width, text, value, style, render);
    var twice := Embedded(once, width, text, value, style, render);
    forall r | 0 <= r < |g|
      ensures twice[r] == once[r]
    {
      forall c | 0 <= c < width
        ensures twice[r][c] == once[r][c]
      {
        EmbeddedAt(g, width, text, value, style, render, r, c);
        EmbeddedAt(once, width, text, value, style, render, r, c);
      }
    }
  }

  /**
   * The cells overwritten depend on the matrix's shape, the text and the
   * style only: two matrices of the same shape are overwritten at the same
   * cells, and agree there.
   */
  lemma {:induction false} MaskIgnoresContents<T>(g1: seq<seq<T>>, g2: seq<seq<T>>, width: nat, text: string,
                                                  value: T, style: TextStyle, render: Renderer, r: nat, c: nat)
    requires IsGrid(g1, |g1|, width) && IsGrid(g2, |g1|, width) && DrawsOnCanvas(render)
    requires r < |g1| && c < width
    ensures var e1, e2 := Embedded(g1, width, text, value, style, render), Embedded(g2, width, text, value, style, render);
      (e1[r][c] == value && e2[r][c] == value) || (e1[r][c] == g1[r][c] && e2[r][c] == g2[r][c])
  {
    EmbeddedAt(g1, width, text, value, style, render, r, c);
    EmbeddedAt(g2, width, text, value, style, render, r, c);
  }

  /**
   * embed_text: overwrites the masked cells of the caller's matrix in place
   * and returns that same matrix.
   */
  method EmbedText<T>(mat: array2<T>, text: string, value: T, style: TextStyle, render: Renderer)
    returns (r: array2<T>)
    requires DrawsOnCanvas(render)
    modifies mat
    ensures r == mat
    ensures Grid(mat) == Embedded(old(Grid(mat)), mat.Length1, text, value, style, render)
  {
    var height, width := mat.Length0, mat.Length1;
    var raster := render(height, width, text, style);
    var mask := Mask(raster);
    forall i, j | 0 <= i < height && 0 <= j < width && mask[i][j] {
      mat[i, j] := value;
    }
    GridEquals(mat, Embedded(old(Grid(mat)), width, text, value, style, render));
    return mat;
  }
}
