/** The letterbox transform of `resize_image`: scale a decoded picture so that
    it fits the target canvas with its aspect ratio kept, and paste it centred
    on a white canvas of exactly the target size.

    Decoding, Lanczos resampling, pixel pasting and JPEG encoding belong to the
    imaging library; the model keeps them abstract. A decoder is a function
    from bytes to an optional `Image`, and an encoder a function from the
    composed `Canvas` to bytes. The `Canvas` value records everything the
    transform decides: canvas size, mode and fill colour, the picture pasted,
    the size it is resampled to, and where it is pasted.

    The source computes the aspect ratio in floating point and truncates with
    `int()`; the model uses exact integer arithmetic instead, so that
    `new_h = floor(Tw * H / W)` and `new_w = floor(Th * W / H)`. */
module Letterbox {
  import opened Common

  datatype Size = Size(width: nat, height: nat)

  /** TARGET_SIZE. */
  const TargetSize := Size(640, 640)

  datatype Color = Rgb(red: nat, green: nat, blue: nat)

  /** The fill colour of the canvas. */
  const White := Rgb(255, 255, 255)

  /** What the transform looks at in a decoded picture: its size and the
      name of its pixel mode ("RGB", "RGBA", "L", ...). */
  datatype Image = Image(width: nat, height: nat, mode: string)

  /** The composed picture handed to the encoder: a `size` canvas in `mode`
      filled with `background`, with `content` resampled to `scaled` and
      pasted with its top-left corner at (`left`, `top`). */
  datatype Canvas = Canvas(size: Size, mode: string, background: Color,
                           content: Image, scaled: Size, left: int, top: int)

  /** Why the transform raised: the bytes did not decode, the height is zero
      (the aspect ratio divides by it), or the scaled size has a zero side,
      which the resampler refuses. */
  datatype ResizeError = DecodeFailed | ZeroHeight | EmptyScaledImage

  /** An RGBA picture is converted to RGB; any other mode is kept. */
  function Flatten(img: Image): (r: Image)
    ensures r.width == img.width && r.height == img.height
    ensures img.mode == "RGBA" ==> r.mode == "RGB"
    ensures img.mode != "RGBA" ==> r == img
  {
    if img.mode == "RGBA" then img.(mode := "RGB") else img
  }

  /** The scaled size: a wider-than-tall picture takes the target width and
      the height that keeps its proportions, rounded down; any other picture,
      a square one included, takes the target height and the proportional
      width, rounded down. */
  function ScaledSize(w: nat, h: nat, target: Size): (r: Size)
    requires h > 0
    ensures w > h ==> r.width == target.width
    ensures w > h ==> r.height * w <= target.width * h < (r.height + 1) * w
    ensures w <= h ==> r.height == target.height
    ensures w <= h ==> r.width * h <= target.height * w < (r.width + 1) * h
  {
    if w > h then Size(target.width, (target.width * h) / w)
    else Size((target.height * w) / h, target.height)
  }

  /** The paste position `((Tw - new_w) // 2, (Th - new_h) // 2)`. Dafny's
      `/` by a positive divisor rounds down, as Python's `//` does. The
      margin before the picture is never larger than the one after it, and
      smaller by at most one pixel. */
  function PasteOffset(canvas: Size, scaled: Size): (p: (int, int))
    ensures p.0 <= canvas.width - scaled.width - p.0 <= p.0 + 1
    ensures p.1 <= canvas.height - scaled.height - p.1 <= p.1 + 1
  {
    ((canvas.width - scaled.width) / 2, (canvas.height - scaled.height) / 2)
  }

  /** The geometry part of `resize_image`, from the decoded picture to the
      canvas handed to the encoder. */
  function Compose(img: Image, size: Size): (r: Result<Canvas, ResizeError>)
    ensures img.height == 0 ==> r == Err(ZeroHeight)
    ensures r.Err? ==> r.error != DecodeFailed
    ensures r.Ok? ==> r.value.size == size && r.value.mode == "RGB" && r.value.background == White
    ensures r.Ok? ==> r.value.content == Flatten(img)
    ensures r.Ok? ==> r.value.scaled.width > 0 && r.value.scaled.height > 0
    ensures r.Ok? ==>
      && img.height > 0
      && r.value.scaled == ScaledSize(img.width, img.height, size)
      && (r.value.left, r.value.top) == PasteOffset(size, r.value.scaled)
  {
    if img.height == 0 then Err(ZeroHeight)
    else
      var scaled := ScaledSize(img.width, img.height, size);
      if scaled.width == 0 || scaled.height == 0 then Err(EmptyScaledImage)
      else
        var offset := PasteOffset(size, scaled);
        Ok(Canvas(size, "RGB", White, Flatten(img), scaled, offset.0, offset.1))
  }

  /** `resize_image`: decode, compose, encode. It fails when the bytes do not
      decode, when the picture has no height, or when a scaled side is zero;
      otherwise it is the encoding of a white RGB canvas of exactly `size`
      holding the flattened picture, resampled to its scaled size and pasted
      at the centring offset. */
  function ResizeImage(data: seq<byte>, size: Size, decode: seq<byte> -> Option<Image>,
                       encode: Canvas -> seq<byte>): (r: Result<seq<byte>, ResizeError>)
    ensures decode(data).None? ==> r == Err(DecodeFailed)
    ensures decode(data).Some? && decode(data).value.height == 0 ==> r == Err(ZeroHeight)
    ensures decode(data).Some? && decode(data).value.height > 0 ==>
      var img := decode(data).value;
      var s := ScaledSize(img.width, img.height, size);
      && (r.Ok? <==> s.width > 0 && s.height > 0)
      && (r.Err? ==> r.error == EmptyScaledImage)
      && (r.Ok? ==> exists c: Canvas ::
            && c.size == size && c.mode == "RGB" && c.background == White
            && c.content == Flatten(img) && c.scaled == s
            && (c.left, c.top) == PasteOffset(size, s)
            && r.value == encode(c))
  {
    match decode(data)
    case None => Err(DecodeFailed)
    case Some(img) =>
      match Compose(img, size)
      case Err(e) => Err(e)
      case Ok(c) => Ok(encode(c))
  }

  /** A quotient `a / b` is at most `c` when `a` is at most `c * b`. */
  lemma {:induction false} DivAtMost(a: nat, b: nat, c: nat)
    requires b > 0 && a <= c * b
    ensures a / b <= c
  {
    var q := a / b;
    assert q * b <= a;
  }

  /** On a square canvas the scaled picture never exceeds the canvas, and it
      fills the canvas along its longer side. */
  lemma {:induction false} ScaledSizeFitsSquare(w: nat, h: nat, n: nat)
    requires h > 0
    ensures ScaledSize(w, h, Size(n, n)).width <= n
    ensures ScaledSize(w, h, Size(n, n)).height <= n
    ensures ScaledSize(w, h, Size(n, n)).width == n || ScaledSize(w, h, Size(n, n)).height == n
  {
    if w > h {
      assert n * h <= n * w;
      DivAtMost(n * h, w, n);
    } else {
      assert n * w <= n * h;
      DivAtMost(n * w, h, n);
    }
  }

  /** On a square canvas the pasted picture lies entirely inside the canvas,
      with margins that differ by at most one pixel on each axis. */
  lemma {:induction false} SquareCanvasContainsPicture(img: Image, n: nat)
    requires Compose(img, Size(n, n)).Ok?
    ensures var c := Compose(img, Size(n, n)).value;
      && 0 <= c.left && c.left + c.scaled.width <= n
      && 0 <= c.top && c.top + c.scaled.height <= n
      && (c.scaled.width == n || c.scaled.height == n)
      && c.left <= n - c.scaled.width - c.left <= c.left + 1
      && c.top <= n - c.scaled.height - c.top <= c.top + 1
  {
    ScaledSizeFitsSquare(img.width, img.height, n);
  }

  /** Every outcome of `Compose`: it fails exactly for a zero height or a
      scaled size with a zero side, and otherwise keeps the proportions of the
      picture to within one pixel on the side it does not match. */
  lemma {:induction false} ComposeOutcome(img: Image, size: Size)
    ensures Compose(img, size).Err? <==>
      img.height == 0 ||
      ScaledSize(img.width, img.height, size).width == 0 ||
      ScaledSize(img.width, img.height, size).height == 0
    ensures Compose(img, size).Ok? && img.width > img.height ==>
      var s := Compose(img, size).value.scaled;
      s.width == size.width && s.height * img.width <= size.width * img.height < (s.height + 1) * img.width
    ensures Compose(img, size).Ok? && img.width <= img.height ==>
      var s := Compose(img, size).value.scaled;
      s.height == size.height && s.width * img.height <= size.height * img.width < (s.width + 1) * img.height
  {
  }

  /** A 1920x1080 picture becomes 640x360, pasted 140 pixels from the top. */
  lemma {:induction false} LandscapeExample(img: Image)
    requires img == Image(1920, 1080, "RGB")
    ensures Compose(img, TargetSize) ==
      Ok(Canvas(TargetSize, "RGB", White, img, Size(640, 360), 0, 140))
  {
  }

  /** A square picture takes the height-first branch and fills the canvas. */
  lemma {:induction false} SquareExample(img: Image)
    requires img == Image(800, 800, "RGBA")
    ensures Compose(img, TargetSize) ==
      Ok(Canvas(TargetSize, "RGB", White, Image(800, 800, "RGB"), Size(640, 640), 0, 0))
  {
  }

  /** A picture far wider than tall scales to a zero height, so the resampler
      refuses it and the transform fails. */
  lemma {:induction false} ThinStripExample(img: Image)
    requires img == Image(1000, 1, "RGB")
    ensures Compose(img, TargetSize) == Err(EmptyScaledImage)
  {
  }
}
