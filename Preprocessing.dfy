/**
 * Image-to-tensor preprocessing: the centre crop of the resized picture and the
 * channel-major [1, 3, Target, Target] tensor of standardised pixel values. Decoding and
 * resizing are done by the image library; the model starts from the resized picture,
 * whose size the library computed by floating-point rounding.
 */
module Preprocessing {
  import opened Common

  /** The side of the square the encoder expects. */
  const Target: nat := 224

  /** Per-channel mean and standard deviation of the encoder's training images. */
  const Mean: seq<real> := [0.48145466, 0.4578275, 0.40821073]
  const Std: seq<real> := [0.26862954, 0.26130258, 0.27577711]

  datatype Rgb = Rgb(r: byte, g: byte, b: byte)

  /** A decoded picture; pixels[y][x] is the pixel in column x of row y. */
  datatype Image = Image(width: nat, height: nat, pixels: seq<seq<Rgb>>)

  predicate WellFormed(img: Image) {
    |img.pixels| == img.height && forall y :: 0 <= y < img.height ==> |img.pixels[y]| == img.width
  }

  datatype Rectangle = Rectangle(x: int, y: int, width: int, height: int)

  /** C#'s `a / 2` on int, which truncates toward zero. */
  function HalfTowardZero(a: int): int {
    if a >= 0 then a / 2 else -((-a) / 2)
  }

  /** The crop rectangle of ResizeAndCenterCrop for a picture resized to nw x nh. */
  function CenterCropRectangle(nw: int, nh: int, w: int, h: int): Rectangle {
    Rectangle(HalfTowardZero(nw - w), HalfTowardZero(nh - h), w, h)
  }

  /**
   * The crop rectangle is exactly w x h. When the resized picture is at least that
   * large it lies inside the picture and is centred: the margin after it exceeds the
   * margin before it by at most one pixel. When the picture is narrower (or lower) the
   * offset truncates toward zero, to -((w - nw) / 2).
   */
  lemma CenterCropRectangleCentred(nw: int, nh: int, w: int, h: int)
    ensures CenterCropRectangle(nw, nh, w, h).width == w
    ensures CenterCropRectangle(nw, nh, w, h).height == h
    ensures var r := CenterCropRectangle(nw, nh, w, h);
      w <= nw ==> 0 <= r.x && r.x + w <= nw && 0 <= (nw - (r.x + w)) - r.x <= 1
    ensures var r := CenterCropRectangle(nw, nh, w, h);
      h <= nh ==> 0 <= r.y && r.y + h <= nh && 0 <= (nh - (r.y + h)) - r.y <= 1
    ensures var r := CenterCropRectangle(nw, nh, w, h);
      nw < w ==> r.x == -((w - nw) / 2) && r.x <= 0
    ensures var r := CenterCropRectangle(nw, nh, w, h);
      nh < h ==> r.y == -((h - nh) / 2) && r.y <= 0
  {
  }

  /** ImageSharp's Crop: the pixels inside the rectangle; a rectangle reaching outside the picture throws. */
  function Crop(img: Image, rect: Rectangle): Outcome<Image>
    requires WellFormed(img)
  {
    if rect.x < 0 || rect.y < 0 || rect.width < 0 || rect.height < 0
       || rect.x + rect.width > img.width || rect.y + rect.height > img.height
    then Threw
    else Returned(Image(rect.width, rect.height,
                        seq(rect.height, row requires 0 <= row < rect.height =>
                              img.pixels[rect.y + row][rect.x..rect.x + rect.width])))
  }

  /** ResizeAndCenterCrop, from the point where the library has resized the picture to nw x nh. */
  function ResizeAndCenterCrop(resized: Image, w: nat, h: nat): Outcome<Image>
    requires WellFormed(resized)
  {
    Crop(resized, CenterCropRectangle(resized.width, resized.height, w, h))
  }

  /**
   * The crop succeeds exactly when the resized picture is at least w x h; it then
   * yields a w x h picture whose pixel (x, y) is the resized picture's pixel shifted
   * by the centring offsets.
   */
  lemma ResizeAndCenterCropCorrect(resized: Image, w: nat, h: nat)
    requires WellFormed(resized)
    ensures ResizeAndCenterCrop(resized, w, h).Returned? <==> w <= resized.width && h <= resized.height
    ensures ResizeAndCenterCrop(resized, w, h).Returned? ==>
      var out := ResizeAndCenterCrop(resized, w, h).value;
      var r := CenterCropRectangle(resized.width, resized.height, w, h);
      && WellFormed(out) && out.width == w && out.height == h
      && forall y, x :: 0 <= y < h && 0 <= x < w ==> out.pixels[y][x] == resized.pixels[y + r.y][x + r.x]
  {
    CenterCropRectangleCentred(resized.width, resized.height, w, h);
  }

  function Channel(p: Rgb, c: nat): byte {
    if c == 0 then p.r else if c == 1 then p.g else p.b
  }

  /** A channel value scaled to [0, 1] and standardised with that channel's constants. */
  function Standardize(value: byte, c: nat): real
    requires c < 3
  {
    (value as real / 255.0 - Mean[c]) / Std[c]
  }

  /** The position of element [0, c, y, x] in the flat buffer of a [1, 3, Target, Target] tensor. */
  function Offset(c: nat, y: nat, x: nat): nat {
    c * 50176 + y * 224 + x
  }

  /**
   * Preprocess: centre-crops the resized picture to Target x Target, which throws when
   * the picture is smaller than that, and otherwise writes every pixel's three
   * standardised channels into a fresh tensor, channel-major (NCHW).
   */
  method Preprocess(resized: Image) returns (tensor: Outcome<array<real>>)
    requires WellFormed(resized)
    ensures tensor.Threw? <==> resized.width < Target || resized.height < Target
    ensures tensor.Returned? ==> fresh(tensor.value) && tensor.value.Length == 3 * Target * Target
    ensures tensor.Returned? ==>
      var square := ResizeAndCenterCrop(resized, Target, Target).value;
      forall c, y, x :: 0 <= c < 3 && 0 <= y < Target && 0 <= x < Target ==>
        tensor.value[Offset(c, y, x)] == Standardize(Channel(square.pixels[y][x], c), c)
  {
    ResizeAndCenterCropCorrect(resized, Target, Target);
    var cropped := ResizeAndCenterCrop(resized, Target, Target);
    if cropped.Threw? {
      return Threw;
    }
    var square := cropped.value;
    var t := new real[150528](_ => 0.0);
    for y := 0 to Target
      invariant forall c, yy, xx :: 0 <= c < 3 && 0 <= yy < y && 0 <= xx < Target ==>
        t[Offset(c, yy, xx)] == Standardize(Channel(square.pixels[yy][xx], c), c)
    {
      for x := 0 to Target
        invariant forall c, yy, xx :: 0 <= c < 3 && 0 <= yy < y && 0 <= xx < Target ==>
          t[Offset(c, yy, xx)] == Standardize(Channel(square.pixels[yy][xx], c), c)
        invariant forall c, xx :: 0 <= c < 3 && 0 <= xx < x ==>
          t[Offset(c, y, xx)] == Standardize(Channel(square.pixels[y][xx], c), c)
      {
        var pix := square.pixels[y][x];
        t[Offset(0, y, x)] := Standardize(pix.r, 0);
        t[Offset(1, y, x)] := Standardize(pix.g, 1);
        t[Offset(2, y, x)] := Standardize(pix.b, 2);
      }
    }
    return Returned(t);
  }
}
