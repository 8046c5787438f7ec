/** The canvas arithmetic of `expand_png` in png_expand.py: a canvas
    `2 * padding` larger in each direction, filled with the background, with
    the original placed at offset (padding, padding). Pasting is a plain
    overwrite of the covered pixels. */
module Canvas {
  import opened Wrappers
  import opened Colors

  /** Size of the new canvas and where the original goes on it. */
  datatype Layout = Layout(width: int, height: int, left: int, top: int)

  /** New size and paste offset, as `expand_png` computes them. */
  function CanvasLayout(w: nat, h: nat, padding: int): (l: Layout)
    ensures l.left == padding && l.top == padding
    ensures l.width - (l.left + w) == l.left && l.height - (l.top + h) == l.top
    ensures padding >= 0 ==>
              0 <= l.left && l.left + w <= l.width && 0 <= l.top && l.top + h <= l.height
  {
    Layout(w + padding * 2, h + padding * 2, padding, padding)
  }

  /** An image: `height` rows of `width` colours each. */
  datatype Image = Image(width: nat, height: nat, rows: seq<seq<Color>>)

  predicate Valid(img: Image) {
    |img.rows| == img.height && forall y :: 0 <= y < |img.rows| ==> |img.rows[y]| == img.width
  }

  function Pixel(img: Image, x: nat, y: nat): (p: Color)
    requires Valid(img) && x < img.width && y < img.height
  {
    img.rows[y][x]
  }

  /** Pillow refuses to create a canvas with a negative side. */
  datatype CanvasError = NegativeSize(width: int, height: int)

  /** The colour of canvas pixel (x, y): the original's pixel where the pasted
      image covers it, the background elsewhere. */
  function Composite(img: Image, l: Layout, background: Color, x: int, y: int): (p: Color)
    requires Valid(img)
    ensures l.left <= x < l.left + img.width && l.top <= y < l.top + img.height ==>
              p == Pixel(img, x - l.left, y - l.top)
    ensures x < l.left || x >= l.left + img.width || y < l.top || y >= l.top + img.height ==>
              p == background
  {
    var sx := x - l.left;
    var sy := y - l.top;
    if 0 <= sx < img.width && 0 <= sy < img.height then img.rows[sy][sx] else background
  }

  /** A fresh canvas of the layout's size with the original pasted on it. */
  function Paste(img: Image, l: Layout, background: Color): (out: Image)
    requires Valid(img) && l.width >= 0 && l.height >= 0
    ensures Valid(out) && out.width == l.width && out.height == l.height
  {
    Image(l.width, l.height,
      seq(l.height, y requires 0 <= y < l.height =>
        seq(l.width, x requires 0 <= x < l.width => Composite(img, l, background, x, y))))
  }

  /** `Image.new` followed by `paste`: fails only when a side of the new
      canvas would be negative (a negative padding larger than half a side). */
  function Expand(img: Image, padding: int, background: Color): (r: Result<Image, CanvasError>)
    requires Valid(img)
    ensures r.Success? <==> img.width + 2 * padding >= 0 && img.height + 2 * padding >= 0
    ensures r.Success? ==> Valid(r.value)
    ensures r.Success? ==> r.value.width == img.width + 2 * padding && r.value.height == img.height + 2 * padding
    ensures r.Failure? ==> r.error == NegativeSize(img.width + 2 * padding, img.height + 2 * padding)
  {
    var l := CanvasLayout(img.width, img.height, padding);
    if l.width < 0 || l.height < 0 then Failure(NegativeSize(l.width, l.height))
    else Success(Paste(img, l, background))
  }

  /** Every pixel of the padded image outside the pasted rectangle is the
      background, so for padding p >= 0 the border is exactly p wide on all
      four sides. */
  lemma BorderIsBackground(img: Image, padding: nat, background: Color, x: nat, y: nat)
    requires Valid(img)
    requires x < img.width + 2 * padding && y < img.height + 2 * padding
    requires x < padding || x >= padding + img.width || y < padding || y >= padding + img.height
    ensures Pixel(Expand(img, padding, background).value, x, y) == background
  {
  }

  /** The pasted rectangle holds the original, pixel for pixel, at offset
      (padding, padding). */
  lemma CenterIsOriginal(img: Image, padding: nat, background: Color, x: nat, y: nat)
    requires Valid(img) && x < img.width && y < img.height
    ensures Pixel(Expand(img, padding, background).value, x + padding, y + padding) == Pixel(img, x, y)
  {
  }

  /** The `w` by `h` rectangle of `img` whose top left corner is (left, top). */
  function Crop(img: Image, left: nat, top: nat, w: nat, h: nat): (out: Image)
    requires Valid(img) && left + w <= img.width && top + h <= img.height
    ensures Valid(out) && out.width == w && out.height == h
    ensures forall x, y :: 0 <= x < w && 0 <= y < h ==> out.rows[y][x] == img.rows[top + y][left + x]
  {
    Image(w, h, seq(h, y requires 0 <= y < h => img.rows[top + y][left..left + w]))
  }

  /** Cropping the padding away gives back the original: expansion loses
      nothing. */
  lemma CropUndoesExpand(img: Image, padding: nat, background: Color)
    requires Valid(img)
    ensures var out := Expand(img, padding, background).value;
              Crop(out, padding, padding, img.width, img.height) == img
  {
    var out := Expand(img, padding, background).value;
    var back := Crop(out, padding, padding, img.width, img.height);
    forall y | 0 <= y < img.height
      ensures back.rows[y] == img.rows[y]
    {
      forall x | 0 <= x < img.width
        ensures back.rows[y][x] == img.rows[y][x]
      {
        CenterIsOriginal(img, padding, background, x, y);
      }
    }
  }

  /** Padding is additive: expanding by p and then by q is expanding by
      p + q, so an expanded image is never a fixed point of expansion. */
  lemma PaddingAdds(img: Image, p: nat, q: nat, background: Color)
    requires Valid(img)
    ensures Expand(Expand(img, p, background).value, q, background) == Expand(img, p + q, background)
  {
    var once := Expand(img, p, background).value;
    var twice := Expand(once, q, background).value;
    var direct := Expand(img, p + q, background).value;
    forall y | 0 <= y < twice.height
      ensures twice.rows[y] == direct.rows[y]
    {
      forall x | 0 <= x < twice.width
        ensures twice.rows[y][x] == direct.rows[y][x]
      {
        PaddingAddsAt(img, p, q, background, x, y);
      }
    }
    assert twice.rows == direct.rows;
  }

  /** One pixel of `PaddingAdds`. */
  lemma PaddingAddsAt(img: Image, p: nat, q: nat, background: Color, x: nat, y: nat)
    requires Valid(img)
    requires x < img.width + 2 * (p + q) && y < img.height + 2 * (p + q)
    ensures var once := Expand(img, p, background).value;
            Pixel(Expand(once, q, background).value, x, y) == Pixel(Expand(img, p + q, background).value, x, y)
  {
    var once := Paste(img, CanvasLayout(img.width, img.height, p), background);
    PastePixel(once, CanvasLayout(once.width, once.height, q), background, x, y);
    PastePixel(img, CanvasLayout(img.width, img.height, p + q), background, x, y);
    CompositeAdds(img, p, q, background, x, y);
  }

  /** A pixel of a pasted canvas is the composite colour there. */
  lemma PastePixel(img: Image, l: Layout, background: Color, x: nat, y: nat)
    requires Valid(img) && x < l.width && y < l.height
    ensures Paste(img, l, background).rows[y][x] == Composite(img, l, background, x, y)
  {
  }

  /** Compositing onto a canvas that is itself a composite. */
  lemma CompositeAdds(img: Image, p: nat, q: nat, background: Color, x: int, y: int)
    requires Valid(img)
    ensures var once := Paste(img, CanvasLayout(img.width, img.height, p), background);
            Composite(once, CanvasLayout(once.width, once.height, q), background, x, y) ==
            Composite(img, CanvasLayout(img.width, img.height, p + q), background, x, y)
  {
    var l := CanvasLayout(img.width, img.height, p);
    var once := Paste(img, l, background);
    var sx, sy := x - q, y - q;
    if 0 <= sx < once.width && 0 <= sy < once.height {
      PastePixel(img, l, background, sx, sy);
    }
  }

  /** Expanding by a positive padding always changes the image. */
  lemma ExpandGrows(img: Image, padding: nat, background: Color)
    requires Valid(img) && padding > 0
    ensures Expand(img, padding, background).value != img
    ensures Expand(img, padding, background).value.width > img.width
  {
  }

  /** Pillow colour modes. */
  datatype Mode = RGB | RGBA | OtherMode(name: string)

  /** The mode of the saved image. The input is converted to RGBA before
      the test for an RGB original, so that test never sees RGB and the
      collapse back to RGB never happens: the output is always RGBA. */
  function OutputMode(input: Mode, background: Color): (m: Mode)
    ensures m == RGBA
  {
    var working := if input != RGBA then RGBA else input;
    if working == RGB && background.a == 255 then RGB else RGBA
  }
}
