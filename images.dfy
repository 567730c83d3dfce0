/** The argument checks of the static `Image` factories and the geometry
    they promise: the size of a transformed region and the row-major layout
    of an ARGB array. Decoding of image data is not modelled; a factory
    that decodes returns the bytes it would hand to the decoder. */
module Images {
  import opened JavaLang
  import opened Transform

  /** An image as the factories describe it: its size and mutability. */
  datatype Image = Image(width: int32, height: int32, mutable: bool)

  /** An immutable image built from ARGB values, with its pixels. */
  datatype Raster = Raster(image: Image, argb: seq<int32>) {

    ghost predicate Valid() {
      image.width > 0 && image.height > 0 && |argb| == image.width * image.height
    }

    /** `P(a, b)`: the pixel at column `a`, row `b`. */
    function At(a: int, b: int): int32
      requires Valid()
      requires 0 <= a < image.width && 0 <= b < image.height
    {
      PixelIndexInBounds(a, b, image.width, image.height);
      argb[PixelIndex(a, b, image.width)]
    }
  }

  // ----- createImage(int width, int height) -----

  /** A new blank mutable image. Both sizes must be positive. */
  function CreateImage(width: int32, height: int32): (r: Result<Image>)
    ensures r.Ok? <==> width > 0 && height > 0
    ensures r.Err? ==> r.error == IllegalArgument
    ensures r.Ok? ==> r.value.mutable && r.value.width == width && r.value.height == height
  {
    if width <= 0 || height <= 0 then Err(IllegalArgument)
    else Ok(Image(width, height, true))
  }

  // ----- createImage(Image source) -----

  /** An immutable image with the contents and size of `source`. */
  function CreateImageCopy(source: Image): (r: Image)
    ensures !r.mutable && r.width == source.width && r.height == source.height
  {
    Image(source.width, source.height, false)
  }

  // ----- createImage(byte[] imageData, int imageOffset, int imageLength) -----

  /** Index `i` lies inside an array of length `n`. */
  predicate InArray(n: int, i: int) {
    0 <= i < n
  }

  /** The offset names an element of the array and every index of the
      range `[offset, offset + length)` lies inside the array. */
  ghost predicate RangeInside(n: int, offset: int, length: int) {
    InArray(n, offset) && length >= 0 &&
    forall i :: offset <= i < offset + length ==> InArray(n, i)
  }

  /** The guard of the byte-array factory: true when it throws. */
  predicate RejectsBytes(n: int, offset: int32, length: int32) {
    offset < 0 || offset >= n || length < 0 || offset + length > n
  }

  lemma RejectsBytesIffOutside(n: int, offset: int32, length: int32)
    ensures RejectsBytes(n, offset, length) <==> !RangeInside(n, offset, length)
  {
    if !RejectsBytes(n, offset, length) {
      forall i | offset <= i < offset + length ensures InArray(n, i) { }
    } else if InArray(n, offset) && length >= 0 {
      assert offset + length > n;
      assert !InArray(n, offset + length - 1);
    }
  }

  /** The bytes the factory hands to the decoder: the range
      `[imageOffset, imageOffset + imageLength)` of `imageData`, provided
      the range lies inside the array. A zero length is accepted. */
  function CreateImageFromBytes(imageData: seq<int8>, imageOffset: int32, imageLength: int32)
    : (r: Result<seq<int8>>)
    ensures r.Ok? <==> RangeInside(|imageData|, imageOffset, imageLength)
    ensures r.Err? ==> r.error == ArrayIndexOutOfBounds
    ensures r.Ok? ==>
              && imageOffset + imageLength <= |imageData|
              && r.value == imageData[imageOffset..imageOffset + imageLength]
  {
    RejectsBytesIffOutside(|imageData|, imageOffset, imageLength);
    if RejectsBytes(|imageData|, imageOffset, imageLength) then Err(ArrayIndexOutOfBounds)
    else Ok(imageData[imageOffset..imageOffset + imageLength])
  }

  /** The same guard as the source evaluates it, with `imageOffset +
      imageLength` computed in 32-bit `int` arithmetic. */
  predicate RejectsBytesAsWritten(n: int, offset: int32, length: int32) {
    offset < 0 || offset >= n || length < 0 || Wrap32(offset + length) > n
  }

  /** The written guard agrees with the intended one whenever the sum does
      not overflow, and never rejects more than it. */
  lemma RejectsBytesAsWrittenAgrees(n: int, offset: int32, length: int32)
    requires 0 <= n <= INT32_MAX
    ensures offset + length <= INT32_MAX ==>
      (RejectsBytesAsWritten(n, offset, length) <==> RejectsBytes(n, offset, length))
    ensures RejectsBytesAsWritten(n, offset, length) ==> RejectsBytes(n, offset, length)
  {
    if offset + length > INT32_MAX && offset >= 0 && length >= 0 {
      assert Wrap32(offset + length) == offset + length - 0x1_0000_0000;
    }
  }

  /** Offset 1 and length `Integer.MAX_VALUE` on a 10-byte array: the sum
      wraps to a negative `int`, the written guard lets the call through,
      although the range runs past the end of the array. */
  lemma BytesOverflowSlipsThrough()
    ensures !RejectsBytesAsWritten(10, 1, INT32_MAX)
    ensures RejectsBytes(10, 1, INT32_MAX)
  {
    assert Wrap32(1 + INT32_MAX) == INT32_MIN;
  }

  // ----- createImage(Image image, int x, int y, int width, int height, int transform) -----

  /** Pixel `(a, b)` lies inside `image`. */
  predicate InImage(image: Image, a: int, b: int) {
    0 <= a < image.width && 0 <= b < image.height
  }

  /** The region is non-empty and each of its pixels lies inside `image`. */
  ghost predicate RegionInside(image: Image, x: int, y: int, width: int, height: int) {
    width > 0 && height > 0 &&
    forall a, b :: x <= a < x + width && y <= b < y + height ==> InImage(image, a, b)
  }

  /** The region guard of the region factory: true when it throws. */
  predicate RejectsRegion(image: Image, x: int32, y: int32, width: int32, height: int32) {
    x < 0 || y < 0 || x + width > image.width || y + height > image.height ||
    width <= 0 || height <= 0
  }

  lemma RejectsRegionIffOutside(image: Image, x: int32, y: int32, width: int32, height: int32)
    ensures RejectsRegion(image, x, y, width, height) <==> !RegionInside(image, x, y, width, height)
  {
    if !RejectsRegion(image, x, y, width, height) {
      forall a, b | x <= a < x + width && y <= b < y + height ensures InImage(image, a, b) { }
    } else if width > 0 && height > 0 {
      if x < 0 || x + width > image.width {
        var a := if x < 0 then x else x + width - 1;
        assert !InImage(image, a, y);
      } else {
        var b := if y < 0 then y else y + height - 1;
        assert !InImage(image, x, b);
      }
    }
  }

  /** The image made from a region: immutable, the region's size with the
      width and height exchanged when the transform has the swap bit; the
      whole image untransformed is handed to `CreateImageCopy`. */
  function CreateImageRegion(image: Image, x: int32, y: int32, width: int32, height: int32,
                             transform: Code): (r: Result<Image>)
    ensures r.Ok? <==> transform < 8 && RegionInside(image, x, y, width, height)
    ensures r.Err? ==> r.error == IllegalArgument
    ensures r.Ok? ==> !r.value.mutable
    ensures r.Ok? && !SwapsAxes(transform) ==> r.value.width == width && r.value.height == height
    ensures r.Ok? && SwapsAxes(transform) ==> r.value.width == height && r.value.height == width
  {
    ValidIffInRange(transform);
    RejectsRegionIffOutside(image, x, y, width, height);
    if !IsValid(transform) then Err(IllegalArgument)
    else if RejectsRegion(image, x, y, width, height) then Err(IllegalArgument)
    else if x == 0 && y == 0 && width == image.width && height == image.height
            && transform == TRANS_NONE then
      Ok(CreateImageCopy(image))
    else if SwapsAxes(transform) then Ok(Image(height, width, false))
    else Ok(Image(width, height, false))
  }

  /** The whole image with `TRANS_NONE` is the copy `createImage(image)`.
      An `Image` here is only its size and mutability, so the shortcut and
      the general branch agree on this input; the lemma states the size and
      immutability of the result, not that pixels are shared or copied. */
  lemma WholeImageIsCopy(image: Image)
    requires image.width > 0 && image.height > 0
    ensures CreateImageRegion(image, 0, 0, image.width, image.height, TRANS_NONE)
      == Ok(CreateImageCopy(image))
  {
  }

  /** A 100 x 50 region rotated by 90 degrees gives a 50 x 100 image. */
  lemma Rot90SwapsSize(image: Image)
    requires image.width >= 100 && image.height >= 50
    ensures CreateImageRegion(image, 0, 0, 100, 50, TRANS_ROT90) == Ok(Image(50, 100, false))
  {
    RejectsRegionIffOutside(image, 0, 0, 100, 50);
  }

  /** The region guard as the source evaluates it, with `x + width` and
      `y + height` computed in 32-bit `int` arithmetic. */
  predicate RejectsRegionAsWritten(image: Image, x: int32, y: int32, width: int32, height: int32) {
    x < 0 || y < 0 || Wrap32(x + width) > image.width || Wrap32(y + height) > image.height ||
    width <= 0 || height <= 0
  }

  lemma RejectsRegionAsWrittenAgrees(image: Image, x: int32, y: int32, width: int32, height: int32)
    requires image.width >= 0 && image.height >= 0
    ensures x + width <= INT32_MAX && y + height <= INT32_MAX ==>
      (RejectsRegionAsWritten(image, x, y, width, height) <==> RejectsRegion(image, x, y, width, height))
    ensures RejectsRegionAsWritten(image, x, y, width, height) ==> RejectsRegion(image, x, y, width, height)
  {
    if x >= 0 && width >= 0 && x + width > INT32_MAX {
      assert Wrap32(x + width) == x + width - 0x1_0000_0000;
    }
    if y >= 0 && height >= 0 && y + height > INT32_MAX {
      assert Wrap32(y + height) == y + height - 0x1_0000_0000;
    }
  }

  /** A region at x = 1 of width `Integer.MAX_VALUE` in a 10 x 10 image:
      `x + width` wraps to a negative `int` and the written guard accepts a
      region that runs far past the right edge. */
  lemma RegionOverflowSlipsThrough()
    ensures !RejectsRegionAsWritten(Image(10, 10, false), 1, 0, INT32_MAX, 10)
    ensures RejectsRegion(Image(10, 10, false), 1, 0, INT32_MAX, 10)
  {
    assert Wrap32(1 + INT32_MAX) == INT32_MIN;
  }

  // ----- createRGBImage(int[] rgb, int width, int height, boolean processAlpha) -----

  /** The position of pixel `(a, b)` in a row-major array of rows of `width`. */
  function PixelIndex(a: int, b: int, width: int): int {
    a + b * width
  }

  /** Every pixel of a `width` x `height` image has its value inside the
      first `width * height` entries. */
  lemma PixelIndexInBounds(a: int, b: int, width: int, height: int)
    requires 0 <= a < width && 0 <= b < height
    ensures 0 <= PixelIndex(a, b, width) < width * height
  {
    assert b * width <= (height - 1) * width by {
      MulMonotone(b, height - 1, width);
    }
    assert (height - 1) * width + width == height * width;
  }

  lemma MulMonotone(p: int, q: int, w: int)
    requires p <= q && w >= 0
    ensures p * w <= q * w
  {
    assert q * w - p * w == (q - p) * w;
  }

  /** Distinct pixels read distinct entries: the layout is a bijection
      between the pixels and the indices `0 .. width * height - 1`. */
  lemma PixelIndexInverse(a: int, b: int, width: int)
    requires 0 <= a < width && 0 <= b
    ensures PixelIndex(a, b, width) % width == a
    ensures PixelIndex(a, b, width) / width == b
  {
    var i := PixelIndex(a, b, width);
    DivModUnique(i, width, b, a);
  }

  lemma DivModUnique(i: int, w: int, q: int, r: int)
    requires w > 0 && 0 <= r < w && i == q * w + r
    ensures i / w == q && i % w == r
  {
    var q', r' := i / w, i % w;
    assert i == q' * w + r';
    assert (q - q') * w == r' - r;
    if q > q' {
      MulMonotone(1, q - q', w);
    } else if q < q' {
      MulMonotone(1, q' - q, w);
    }
  }

  /** Every index below `width * height` is the position of exactly the
      pixel `(i % width, i / width)`. */
  lemma IndexIsPixel(i: int, width: int, height: int)
    requires width > 0 && 0 <= i < width * height
    ensures PixelIndex(i % width, i / width, width) == i
    ensures 0 <= i / width < height
  {
    if i / width >= height {
      MulMonotone(height, i / width, width);
    }
  }

  /** The image built from ARGB values: `P(a, b) = rgb[a + b * width]`.
      Sizes must be positive and the array must hold `width * height`
      values. Alpha processing is not modelled. */
  function CreateRGBImage(rgb: seq<int32>, width: int32, height: int32, processAlpha: bool)
    : (r: Result<Raster>)
    ensures r.Ok? <==> width > 0 && height > 0 && width * height <= |rgb|
    ensures r.Err? ==>
      r.error == (if width <= 0 || height <= 0 then IllegalArgument else ArrayIndexOutOfBounds)
    ensures r.Ok? ==> r.value.Valid() && r.value.image == Image(width, height, false)
  {
    if width <= 0 || height <= 0 then Err(IllegalArgument)
    else if width * height > |rgb| then Err(ArrayIndexOutOfBounds)
    else Ok(Raster(Image(width, height, false), rgb[..width * height]))
  }

  /** Each pixel of the image is the ARGB value the row-major formula
      names, and that index lies inside the array. */
  lemma RGBPixels(rgb: seq<int32>, width: int32, height: int32, processAlpha: bool, a: int, b: int)
    requires CreateRGBImage(rgb, width, height, processAlpha).Ok?
    requires 0 <= a < width && 0 <= b < height
    ensures 0 <= a + b * width < |rgb| &&
      CreateRGBImage(rgb, width, height, processAlpha).value.At(a, b) == rgb[a + b * width]
  {
    PixelIndexInBounds(a, b, width, height);
  }

  /** `width * height` as the source evaluates it, in 32-bit `int`
      arithmetic. */
  predicate RejectsRGBLengthAsWritten(n: int, width: int32, height: int32) {
    Wrap32(width * height) > n
  }

  /** A 65536 x 65536 image over an empty array: the product wraps to 0 and
      the written guard does not throw, although no pixel has a value. */
  lemma RGBOverflowSlipsThrough()
    ensures !RejectsRGBLengthAsWritten(0, 65536, 65536)
    ensures CreateRGBImage([], 65536, 65536, false).Err?
  {
    assert Wrap32(65536 * 65536) == 0;
  }
}
