/**
 * Image loading of the sample server (sample/util.go): `LoadImageFromBytes`
 * tries the JPEG decoder, then the PNG decoder, and converts what it gets into
 * an 8-bit gray image with `convertToSourceAFISImage`.
 *
 * Decoded images are `Picture`s: Go's `image.Image`, a bounding rectangle and a
 * colour for every point (`At`). The codecs and the colour-to-gray transform
 * (`color.GrayModel.Convert`) are parameters.
 */
module Imaging {
  import opened Basics

  const UnsupportedFormat := "unsupported image format - must be JPEG or PNG"

  /** `image.Rectangle`: the points with Min.X <= x < Max.X and Min.Y <= y < Max.Y. */
  datatype Rectangle = Rectangle(minX: int, minY: int, maxX: int, maxY: int) {
    predicate WellFormed() {
      minX <= maxX && minY <= maxY
    }

    /** `image.Point{x, y}.In(r)`. */
    predicate Contains(x: int, y: int) {
      minX <= x < maxX && minY <= y < maxY
    }
  }

  /** `image.Image`: its bounds and its colour at any point. */
  datatype Picture<C> = Picture(bounds: Rectangle, at: (int, int) -> C)

  /** A codec's `Decode`: the picture, or `None` when the bytes are not in its format. */
  type Codec<C> = seq<byte> -> Option<Picture<C>>

  /**
   * `image.Gray`: one byte per point of `rect`, stored at `pix[x - minX, y - minY]`
   * (Go keeps the same bytes in a flat slice with a stride).
   */
  class Gray {
    const rect: Rectangle
    const pix: array2<byte>

    ghost predicate Valid() {
      rect.WellFormed() && pix.Length0 == rect.maxX - rect.minX && pix.Length1 == rect.maxY - rect.minY
    }

    /** `image.NewGray(r)`: every point black. */
    constructor (r: Rectangle)
      requires r.WellFormed()
      ensures Valid() && rect == r && fresh(pix)
      ensures forall x, y :: At(x, y) == 0
    {
      rect := r;
      pix := new byte[r.maxX - r.minX, r.maxY - r.minY]((i, j) => 0);
    }

    /** `Gray.GrayAt(x, y)`: the stored value inside the bounds, black outside. */
    function At(x: int, y: int): byte
      reads pix
      requires Valid()
    {
      if rect.Contains(x, y) then pix[x - rect.minX, y - rect.minY] else 0
    }

    /** `Gray.Set(x, y, c)`: stores `v` at a point inside the bounds and ignores any other. */
    method Set(x: int, y: int, v: byte)
      requires Valid()
      modifies pix
      ensures forall i, j :: At(i, j) == if i == x && j == y && rect.Contains(x, y) then v else old(At(i, j))
    {
      if rect.Contains(x, y) {
        pix[x - rect.minX, y - rect.minY] := v;
      }
    }
  }

  /**
   * The gray value `convertToSourceAFISImage` leaves at a point of the bounds:
   * its loops run x from 0 to Max.X and y from 0 to Max.Y, so a point with a
   * negative coordinate is never written and stays black.
   */
  function ConvertedPixel<C>(img: Picture<C>, toGray: C -> byte, x: int, y: int): byte {
    if img.bounds.Contains(x, y) && 0 <= x && 0 <= y then toGray(img.at(x, y)) else 0
  }

  /**
   * For bounds that start at the origin or beyond, as the JPEG and PNG decoders
   * produce, every point of the bounds is converted.
   */
  lemma ConvertsWholeImage<C>(img: Picture<C>, toGray: C -> byte, x: int, y: int)
    requires 0 <= img.bounds.minX && 0 <= img.bounds.minY && img.bounds.Contains(x, y)
    ensures ConvertedPixel(img, toGray, x, y) == toGray(img.at(x, y))
  {
  }

  /**
   * `convertToSourceAFISImage`: a new gray image with the same bounds as `img`,
   * filled point by point with the gray value of `img`'s colour there.
   */
  method ConvertToGray<C>(img: Picture<C>, toGray: C -> byte) returns (gray: Gray)
    requires img.bounds.WellFormed()
    ensures gray.Valid() && gray.rect == img.bounds
    ensures forall x, y :: gray.At(x, y) == ConvertedPixel(img, toGray, x, y)
  {
    var bounds := img.bounds;
    gray := new Gray(bounds);
    var x := 0;
    while x < bounds.maxX
      invariant 0 <= x
      invariant fresh(gray.pix)
      invariant forall i, j :: gray.At(i, j) ==
                                 (if bounds.Contains(i, j) && 0 <= i < x && 0 <= j then toGray(img.at(i, j)) else 0)
    {
      var y := 0;
      while y < bounds.maxY
        invariant 0 <= y
        invariant forall i, j :: gray.At(i, j) ==
                                   (if bounds.Contains(i, j) && 0 <= j && (0 <= i < x || (i == x && j < y))
                                    then toGray(img.at(i, j)) else 0)
      {
        gray.Set(x, y, toGray(img.at(x, y)));
        y := y + 1;
      }
      x := x + 1;
    }
  }

  /**
   * The decoding half of `LoadImageFromBytes`: JPEG first, PNG on the same bytes
   * only when JPEG fails, and a fixed error when neither accepts them.
   */
  function DecodeImage<C>(data: seq<byte>, jpeg: Codec<C>, png: Codec<C>): (r: Result<Picture<C>, string>)
    ensures r.Ok? <==> jpeg(data).Some? || png(data).Some?
    ensures r.Err? ==> r.error == UnsupportedFormat
  {
    match jpeg(data)
    case Some(img) => Ok(img)
    case None =>
      match png(data)
      case Some(img) => Ok(img)
      case None => Err(UnsupportedFormat)
  }

  /** When JPEG decoding succeeds its picture is used, whatever PNG would say. */
  lemma JpegWins<C>(data: seq<byte>, jpeg: Codec<C>, png: Codec<C>, other: Codec<C>)
    requires jpeg(data).Some?
    ensures DecodeImage(data, jpeg, png) == Ok(jpeg(data).value)
    ensures DecodeImage(data, jpeg, png) == DecodeImage(data, jpeg, other)
  {
  }

  /** PNG decides only after JPEG has failed. */
  lemma PngFallback<C>(data: seq<byte>, jpeg: Codec<C>, png: Codec<C>)
    requires jpeg(data).None?
    ensures DecodeImage(data, jpeg, png) == match png(data)
                                            case Some(img) => Ok(img)
                                            case None => Err(UnsupportedFormat)
  {
  }

  /**
   * `LoadImageFromBytes`: decode with the JPEG, then the PNG codec, and convert
   * the first picture obtained to gray; report an unsupported format otherwise.
   */
  method LoadImageFromBytes<C>(data: seq<byte>, jpeg: Codec<C>, png: Codec<C>, toGray: C -> byte)
    returns (r: Result<Gray, string>)
    requires jpeg(data).Some? ==> jpeg(data).value.bounds.WellFormed()
    requires jpeg(data).None? && png(data).Some? ==> png(data).value.bounds.WellFormed()
    ensures r.Ok? <==> DecodeImage(data, jpeg, png).Ok?
    ensures r.Err? ==> r.error == UnsupportedFormat
    ensures r.Ok? ==>
      var img := DecodeImage(data, jpeg, png).value;
      && r.value.Valid() && r.value.rect == img.bounds
      && forall x, y :: r.value.At(x, y) == ConvertedPixel(img, toGray, x, y)
  {
    var decoded := jpeg(data);
    if decoded.Some? {
      var gray := ConvertToGray(decoded.value, toGray);
      return Ok(gray);
    }
    decoded := png(data);
    if decoded.Some? {
      var gray := ConvertToGray(decoded.value, toGray);
      return Ok(gray);
    }
    return Err(UnsupportedFormat);
  }
}
