/**
 * The pixel half of `reply_photo`: the scaled frame is alpha-blended onto the
 * photo at the placement chosen by Geometry, and the result is flattened to an
 * opaque colour format. Resampling, blending and flattening belong to the
 * imaging library and enter as function parameters.
 */
module Raster {
  import Geometry

  /** A raster as rows of pixels: `g[r][c]` is the pixel in row r, column c. */
  type Grid<P> = seq<seq<P>>

  /** `g` has `h` rows of `w` pixels each. */
  predicate IsGrid<P>(g: Grid<P>, w: nat, h: nat)
  {
    |g| == h && forall r :: 0 <= r < h ==> |g[r]| == w
  }

  /** Column c, row r lies under a `side × side` square whose top-left corner is (x, y). */
  predicate InSquare(c: int, r: int, x: int, y: int, side: int)
  {
    x <= c < x + side && y <= r < y + side
  }

  /**
   * `image.paste(frame, mask=frame, box=(x, y))`: each photo pixel the frame
   * covers becomes `blend(photo pixel, frame pixel)`, where `blend` stands for
   * the library's masked alpha blend; frame parts outside the photo are dropped.
   */
  function Paste<P>(img: Grid<P>, w: nat, h: nat, frame: Grid<P>, side: nat, x: nat, y: nat,
                    blend: (P, P) -> P): (out: Grid<P>)
    requires IsGrid(img, w, h) && IsGrid(frame, side, side)
    ensures IsGrid(out, w, h)
  {
    seq(h, r requires 0 <= r < h =>
      seq(w, c requires 0 <= c < w =>
        if InSquare(c, r, x, y, side) then blend(img[r][c], frame[r - y][c - x]) else img[r][c]))
  }

  /** A frame pasted wholly inside the image has each of its pixels blended onto the image. */
  lemma PasteCoversFrame<P>(img: Grid<P>, w: nat, h: nat, frame: Grid<P>, side: nat, x: nat, y: nat,
                            blend: (P, P) -> P)
    requires IsGrid(img, w, h) && IsGrid(frame, side, side)
    requires x + side <= w && y + side <= h
    ensures forall i, j :: 0 <= i < side && 0 <= j < side ==>
      Paste(img, w, h, frame, side, x, y, blend)[y + i][x + j] == blend(img[y + i][x + j], frame[i][j])
  {
    var out := Paste(img, w, h, frame, side, x, y, blend);
    forall i, j | 0 <= i < side && 0 <= j < side
      ensures out[y + i][x + j] == blend(img[y + i][x + j], frame[i][j])
    {
      assert InSquare(x + j, y + i, x, y, side);
    }
  }

  /** Pasting leaves every image pixel outside the frame's square as it was. */
  lemma PasteKeepsOutside<P>(img: Grid<P>, w: nat, h: nat, frame: Grid<P>, side: nat, x: nat, y: nat,
                             blend: (P, P) -> P)
    requires IsGrid(img, w, h) && IsGrid(frame, side, side)
    ensures forall r, c :: 0 <= r < h && 0 <= c < w && !InSquare(c, r, x, y, side) ==>
      Paste(img, w, h, frame, side, x, y, blend)[r][c] == img[r][c]
  {
  }

  /** `image.convert("RGB")`: every pixel mapped through `drop`, the dimensions kept. */
  function Convert<P, Q>(img: Grid<P>, w: nat, h: nat, drop: P -> Q): (out: Grid<Q>)
    requires IsGrid(img, w, h)
    ensures IsGrid(out, w, h)
  {
    seq(h, r requires 0 <= r < h => seq(w, c requires 0 <= c < w => drop(img[r][c])))
  }

  /** Converting maps each pixel through `drop` where it stands. */
  lemma ConvertMapsPixels<P, Q>(img: Grid<P>, w: nat, h: nat, drop: P -> Q)
    requires IsGrid(img, w, h)
    ensures forall r, c :: 0 <= r < h && 0 <= c < w ==> Convert(img, w, h, drop)[r][c] == drop(img[r][c])
  {
  }

  /**
   * Paste `frame` at `(x, y)` and flatten, for a box wholly inside the image:
   * each frame pixel is blended onto the photo pixel under it and then
   * flattened, every other photo pixel is only flattened.
   */
  function PasteAndConvert<P, Q>(img: Grid<P>, w: nat, h: nat, frame: Grid<P>, side: nat, x: nat, y: nat,
                                 blend: (P, P) -> P, drop: P -> Q): (out: Grid<Q>)
    requires IsGrid(img, w, h) && IsGrid(frame, side, side)
    requires x + side <= w && y + side <= h
    ensures IsGrid(out, w, h)
    ensures forall i, j :: 0 <= i < side && 0 <= j < side ==>
      y + i < h && x + j < w &&
      out[y + i][x + j] == drop(blend(img[y + i][x + j], frame[i][j]))
    ensures forall r, c :: 0 <= r < h && 0 <= c < w && !InSquare(c, r, x, y, side) ==>
      out[r][c] == drop(img[r][c])
  {
    var pasted := Paste(img, w, h, frame, side, x, y, blend);
    PasteCoversFrame(img, w, h, frame, side, x, y, blend);
    PasteKeepsOutside(img, w, h, frame, side, x, y, blend);
    ConvertMapsPixels(pasted, w, h, drop);
    Convert(pasted, w, h, drop)
  }

  /**
   * Lines 142-148 of `reply_photo` for an accepted photo: scale the frame to
   * the placement's side, paste it, flatten. The output has the photo's
   * dimensions; every frame pixel lands on the photo (nothing is clipped);
   * every photo pixel outside the frame's square is only flattened.
   * `resize(n)` stands for the library's scaling of the frame to `n × n`;
   * the library promises that size, so it is required for the side used.
   */
  function Stamp<P, Q>(img: Grid<P>, w: nat, h: nat, resize: nat -> Grid<P>,
                       blend: (P, P) -> P, drop: P -> Q): (out: Grid<Q>)
    requires IsGrid(img, w, h)
    requires Geometry.Layout(w, h).Place?
    requires var side := Geometry.Layout(w, h).side; IsGrid(resize(side), side, side)
    ensures IsGrid(out, w, h)
    ensures var o := Geometry.Layout(w, h);
      forall i, j :: 0 <= i < o.side && 0 <= j < o.side ==>
        o.y + i < h && o.x + j < w &&
        out[o.y + i][o.x + j] == drop(blend(img[o.y + i][o.x + j], resize(o.side)[i][j]))
    ensures var o := Geometry.Layout(w, h);
      forall r, c :: 0 <= r < h && 0 <= c < w && !InSquare(c, r, o.x, o.y, o.side) ==>
        out[r][c] == drop(img[r][c])
  {
    var o := Geometry.Layout(w, h);
    PasteAndConvert(img, w, h, resize(o.side), o.side, o.x, o.y, blend, drop)
  }
}
