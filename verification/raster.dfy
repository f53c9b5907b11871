/** Grey-level rasters: the part of PIL's `Image` the controller relies on
    (`size`, `crop`, `paste`). Pixels are plain integers; drawing is not modelled. */
module Raster {

  /** A raster of `height` rows, each `width` grey levels wide. */
  datatype Grid = Grid(width: nat, height: nat, rows: seq<seq<int>>) {
    predicate Wf() {
      |rows| == height && forall j :: 0 <= j < height ==> |rows[j]| == width
    }
  }

  /** Rasters whose rows really have the advertised shape. */
  type Image = g: Grid | g.Wf() witness Grid(0, 0, [])

  /** A bounding box `(x1, y1, x2, y2)`: columns `x1..x2-1`, rows `y1..y2-1`. */
  datatype Box = Box(x1: int, y1: int, x2: int, y2: int) {
    function Width(): int { x2 - x1 }
    function Height(): int { y2 - y1 }
    predicate Contains(x: int, y: int) { x1 <= x < x2 && y1 <= y < y2 }
    /** The box lies inside a `width` x `height` raster. */
    predicate Within(width: int, height: int) {
      0 <= x1 <= x2 <= width && 0 <= y1 <= y2 <= height
    }
  }

  /** True when `img` has exactly the box's dimensions, the check PIL callers
      write as `img.size == (x2 - x1, y2 - y1)`. */
  predicate Fits(img: Image, b: Box) {
    img.width == b.Width() && img.height == b.Height()
  }

  /** The grey level at column `x`, row `y`; outside the raster PIL's `crop` reads 0. */
  function At(img: Image, x: int, y: int): int {
    if 0 <= x < img.width && 0 <= y < img.height then img.rows[y][x] else 0
  }

  /** Two rasters of one size that agree on every pixel are equal. */
  lemma Extensionality(a: Image, b: Image)
    requires a.width == b.width && a.height == b.height
    requires forall x, y :: 0 <= x < a.width && 0 <= y < a.height ==> At(a, x, y) == At(b, x, y)
    ensures a == b
  {
    forall j | 0 <= j < a.height
      ensures a.rows[j] == b.rows[j]
    {
      assert forall i :: 0 <= i < a.width ==> At(a, i, j) == a.rows[j][i] && At(b, i, j) == b.rows[j][i];
    }
  }

  /** PIL's `img.crop(box)`: the pixels under the box, zero where the box leaves the raster. */
  function Crop(img: Image, b: Box): (r: Image)
    requires b.x1 <= b.x2 && b.y1 <= b.y2
    ensures Fits(r, b)
    ensures forall x, y :: 0 <= x < r.width && 0 <= y < r.height ==> At(r, x, y) == At(img, b.x1 + x, b.y1 + y)
  {
    Grid(b.x2 - b.x1, b.y2 - b.y1,
      seq(b.y2 - b.y1, j => seq(b.x2 - b.x1, i => At(img, b.x1 + i, b.y1 + j))))
  }

  /** PIL's `dst.paste(src, (x, y))`: `src` overwrites the covered pixels, clipped to `dst`. */
  function Paste(dst: Image, src: Image, x: int, y: int): (r: Image)
    ensures r.width == dst.width && r.height == dst.height
    ensures forall i, j :: 0 <= i < r.width && 0 <= j < r.height ==>
      At(r, i, j) == (if x <= i < x + src.width && y <= j < y + src.height then At(src, i - x, j - y) else At(dst, i, j))
  {
    var g := Grid(dst.width, dst.height,
      seq(dst.height, j => seq(dst.width, i => PastedAt(dst, src, x, y, i, j))));
    assert g.Wf();
    g
  }

  /** The pixel at column `i`, row `j` of `dst` after pasting `src` at `(x, y)`. */
  function PastedAt(dst: Image, src: Image, x: int, y: int, i: int, j: int): int {
    if x <= i < x + src.width && y <= j < y + src.height then At(src, i - x, j - y) else At(dst, i, j)
  }

  /** Pasting a patch into a box inside the raster and cropping the box gives the patch back. */
  lemma CropAfterPaste(dst: Image, src: Image, b: Box)
    requires Fits(src, b)
    requires b.Within(dst.width, dst.height)
    ensures Crop(Paste(dst, src, b.x1, b.y1), b) == src
  {
    var p := Paste(dst, src, b.x1, b.y1);
    var c := Crop(p, b);
    forall x, y | 0 <= x < c.width && 0 <= y < c.height
      ensures At(c, x, y) == At(src, x, y)
    {
      assert At(c, x, y) == At(p, b.x1 + x, b.y1 + y);
    }
    Extensionality(c, src);
  }

  /** Putting back what `crop` took out restores the raster exactly, wherever the box lies. */
  lemma PasteOfCrop(img: Image, b: Box)
    requires b.x1 <= b.x2 && b.y1 <= b.y2
    ensures Paste(img, Crop(img, b), b.x1, b.y1) == img
  {
    var c := Crop(img, b);
    var p := Paste(img, c, b.x1, b.y1);
    PasteOfCropPixels(img, b, c, p);
    Extensionality(p, img);
  }

  lemma PasteOfCropPixels(img: Image, b: Box, c: Image, p: Image)
    requires b.x1 <= b.x2 && b.y1 <= b.y2
    requires c == Crop(img, b) && p == Paste(img, c, b.x1, b.y1)
    ensures p.width == img.width && p.height == img.height
    ensures forall x, y :: 0 <= x < p.width && 0 <= y < p.height ==> At(p, x, y) == At(img, x, y)
  {
    forall x, y | 0 <= x < p.width && 0 <= y < p.height
      ensures At(p, x, y) == At(img, x, y)
    {
      PasteOfCropAt(img, b, c, p, x, y);
    }
  }

  lemma PasteOfCropAt(img: Image, b: Box, c: Image, p: Image, x: int, y: int)
    requires b.x1 <= b.x2 && b.y1 <= b.y2
    requires c == Crop(img, b) && p == Paste(img, c, b.x1, b.y1)
    requires 0 <= x < p.width && 0 <= y < p.height
    ensures At(p, x, y) == At(img, x, y)
  {
    assert At(p, x, y) == PastedAt(img, c, b.x1, b.y1, x, y);
    if b.x1 <= x < b.x1 + c.width && b.y1 <= y < b.y1 + c.height {
      var cx, cy := x - b.x1, y - b.y1;
      assert At(c, cx, cy) == At(img, b.x1 + cx, b.y1 + cy);
    }
  }
}
