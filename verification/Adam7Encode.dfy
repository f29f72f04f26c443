/**
 The round trip of interlaced images: an image taken apart into the seven passes, each
 filtered and encoded, comes back pixel by pixel from the de-interlacing loop.
 */
module Adam7Encode {
  import opened Bits
  import opened PngFilter
  import opened PngExpand
  import opened PngImage
  import opened PngEncode
  import opened Adam7

  /** An image of the header's size. */
  ghost predicate Picture(hd: Header, img: seq<seq<nat>>) {
    hd.Valid() && Legal(hd.f) && |img| == hd.h && Rows(hd.f, img, hd.w)
  }

  lemma SampleInside(hd: Header, img: seq<seq<nat>>, p: nat, j: nat, s: nat)
    requires Picture(hd, img) && p < 7 && j < PassH(p, hd.h) && s < hd.f.img_n * PassW(p, hd.w)
    ensures s / hd.f.img_n < PassW(p, hd.w) && OutY(p, j) < |img|
    ensures OutX(p, s / hd.f.img_n) * hd.f.img_n + s % hd.f.img_n < |img[OutY(p, j)]|
  {
    hide PassW, PassH, OutX, OutY, Samples, PassOf, Col, Row;
    var n, w := hd.f.img_n, PassW(p, hd.w);
    Quotient(s, n, w);
    PassIntoImage(p, hd.w, hd.h, s / n, j);
    PlaceInside(OutX(p, s / n), hd.w, n, s % n);
  }

  lemma Quotient(s: nat, n: nat, w: nat)
    requires n > 0 && s < n * w
    ensures s / n < w
  {
    Scaled(n, s / n - w + 1);
    assert n * (s / n - w + 1) == n * (s / n) - n * w + n;
  }

  /** Sample `s` of row `j` of pass `p`. */
  ghost function PassSample(hd: Header, img: seq<seq<nat>>, p: nat, j: nat, s: nat): nat
    requires Picture(hd, img) && p < 7 && j < PassH(p, hd.h) && s < hd.f.img_n * PassW(p, hd.w)
  {
    SampleInside(hd, img, p, j, s);
    img[OutY(p, j)][OutX(p, s / hd.f.img_n) * hd.f.img_n + s % hd.f.img_n]
  }

  ghost function PassRow(hd: Header, img: seq<seq<nat>>, p: nat, j: nat): (row: seq<nat>)
    requires Picture(hd, img) && p < 7 && j < PassH(p, hd.h)
    ensures |row| == hd.f.img_n * PassW(p, hd.w)
  {
    seq(hd.f.img_n * PassW(p, hd.w), s requires 0 <= s < hd.f.img_n * PassW(p, hd.w) => PassSample(hd, img, p, j, s))
  }

  /** The reduced image of pass `p`. */
  ghost function PassRows(hd: Header, img: seq<seq<nat>>, p: nat): (rows: seq<seq<nat>>)
    requires Picture(hd, img) && p < 7 && 0 <= PassH(p, hd.h)
    ensures |rows| == PassH(p, hd.h)
  {
    seq(PassH(p, hd.h), j requires 0 <= j < PassH(p, hd.h) => PassRow(hd, img, p, j))
  }

  /** Filter types for the rows of every pass. */
  ghost predicate Typed(hd: Header, types: seq<seq<nat>>) {
    && |types| == 7
    && forall p :: 0 <= p < 7 ==>
      |types[p]| == PassH(p, hd.h) && forall j :: 0 <= j < |types[p]| ==> types[p][j] <= 4
  }

  lemma PassRowSamples(hd: Header, img: seq<seq<nat>>, p: nat, j: nat)
    requires Picture(hd, img) && p < 7 && j < PassH(p, hd.h)
    ensures Samples(PassRow(hd, img, p, j), hd.f.depth)
  {
    hide PassW, PassH, OutX, OutY, Pow2;
    var row := PassRow(hd, img, p, j);
    forall s | 0 <= s < |row|
      ensures row[s] < Pow2(hd.f.depth)
    {
      SampleInside(hd, img, p, j, s);
      assert row[s] == PassSample(hd, img, p, j, s);
      assert Samples(img[OutY(p, j)], hd.f.depth);
    }
  }

  lemma PassIsImage(hd: Header, img: seq<seq<nat>>, types: seq<seq<nat>>, p: nat)
    requires Picture(hd, img) && Typed(hd, types) && p < 7 && !Empty(hd, p)
    ensures PassW(p, hd.w) >= 1 && PassH(p, hd.h) >= 1
    ensures Image(hd.f, PassRows(hd, img, p), types[p], PassW(p, hd.w))
  {
    hide PassW, PassH, OutX, OutY, Samples, PassRow, Pow2;
    forall j | 0 <= j < PassH(p, hd.h)
      ensures Samples(PassRows(hd, img, p)[j], hd.f.depth)
    {
      PassRowSamples(hd, img, p, j);
    }
  }

  /** The data of one pass; a pass without pixels has none. */
  ghost function PassData(hd: Header, img: seq<seq<nat>>, types: seq<seq<nat>>, p: nat): seq<Byte>
    requires Picture(hd, img) && Typed(hd, types) && p < 7
  {
    if Empty(hd, p) then []
    else
      PassIsImage(hd, img, types, p);
      EncodeImage(hd.f, PassRows(hd, img, p), types[p], PassW(p, hd.w))
  }

  /** The data of the passes before `p`, one after the other. */
  ghost function PassesBefore(hd: Header, img: seq<seq<nat>>, types: seq<seq<nat>>, p: nat): seq<Byte>
    requires Picture(hd, img) && Typed(hd, types) && p <= 7
  {
    if p == 0 then [] else PassesBefore(hd, img, types, p - 1) + PassData(hd, img, types, p - 1)
  }

  /** A pass takes as many bytes as the source skips for it. */
  lemma PassDataLength(hd: Header, img: seq<seq<nat>>, types: seq<seq<nat>>, p: nat)
    requires Picture(hd, img) && Typed(hd, types) && p < 7
    ensures |PassData(hd, img, types, p)| == PassLen(hd, p)
  {
    hide PassW, PassH, EncodeImage, ImageBytes, WidthBytes, PassRows, Image, Rows, Legal;
    if !Empty(hd, p) {
      PassIsImage(hd, img, types, p);
      EncodeLength(hd.f, PassRows(hd, img, p), types[p], PassW(p, hd.w));
    }
  }

  lemma {:induction false} PassesLength(hd: Header, img: seq<seq<nat>>, types: seq<seq<nat>>, p: nat)
    requires Picture(hd, img) && Typed(hd, types) && p <= 7
    ensures |PassesBefore(hd, img, types, p)| == PassStart(hd, p)
  {
    hide PassData, PassLen, Picture, Typed;
    if p > 0 {
      PassesLength(hd, img, types, p - 1);
      PassDataLength(hd, img, types, p - 1);
    }
  }

  /** The data from pass `p` on begins with that of the pass. */
  lemma {:induction false} PassInPlace(hd: Header, img: seq<seq<nat>>, types: seq<seq<nat>>, p: nat, q: nat, more: seq<Byte>)
    returns (rest: seq<Byte>)
    requires Picture(hd, img) && Typed(hd, types) && p < q <= 7
    ensures PassesBefore(hd, img, types, q) + more
      == PassesBefore(hd, img, types, p) + PassData(hd, img, types, p) + rest
    decreases q
  {
    hide PassData, Picture, Typed;
    if p == q - 1 {
      rest := more;
    } else {
      var data := PassData(hd, img, types, q - 1);
      assert PassesBefore(hd, img, types, q) + more == PassesBefore(hd, img, types, q - 1) + (data + more);
      rest := PassInPlace(hd, img, types, p, q - 1, data + more);
    }
  }

  /** The whole data, with anything behind it. */
  ghost function EncodePasses(hd: Header, img: seq<seq<nat>>, types: seq<seq<nat>>, more: seq<Byte>): seq<Byte>
    requires Picture(hd, img) && Typed(hd, types)
  {
    PassesBefore(hd, img, types, 7) + more
  }

  // ------------------------------------------------------------------- what comes back

  lemma PassDataIs(hd: Header, img: seq<seq<nat>>, types: seq<seq<nat>>, p: nat)
    requires Picture(hd, img) && Typed(hd, types) && p < 7 && !Empty(hd, p)
    ensures |types| == 7 && Image(hd.f, PassRows(hd, img, p), types[p], PassW(p, hd.w))
    ensures PassData(hd, img, types, p) == EncodeImage(hd.f, PassRows(hd, img, p), types[p], PassW(p, hd.w))
    ensures hd.PassWidth(p) == WidthBytes(hd.f.img_n, PassW(p, hd.w), hd.f.depth)
    ensures forall j :: 0 <= j < |PassRows(hd, img, p)| ==> Samples(PassRows(hd, img, p)[j], hd.f.depth)
    ensures Depth(hd.f.depth) && PassLines(hd, img, p) == Flatten(Lines(PassRows(hd, img, p), hd.f.depth))
  {
    PassRowsSampled(hd, img, p);
    hide PassW, PassH, Samples, Lines, Flatten, EncodeImage, WidthBytes, PassRows, Image, Rows, Legal, Format.Valid;
    PassIsImage(hd, img, types, p);
  }

  /** The bytes of the scanlines of a pass. */
  ghost function PassLines(hd: Header, img: seq<seq<nat>>, p: nat): seq<Byte>
    requires Picture(hd, img) && p < 7 && 0 <= PassH(p, hd.h)
  {
    PassRowsSampled(hd, img, p);
    Flatten(Lines(PassRows(hd, img, p), hd.f.depth))
  }

  lemma PassRowsSampled(hd: Header, img: seq<seq<nat>>, p: nat)
    requires Picture(hd, img) && p < 7 && 0 <= PassH(p, hd.h)
    ensures Depth(hd.f.depth)
    ensures forall j :: 0 <= j < |PassRows(hd, img, p)| ==> Samples(PassRows(hd, img, p)[j], hd.f.depth)
  {
    hide PassW, PassH, Samples, PassRow, Rows, Legal;
    forall j | 0 <= j < |PassRows(hd, img, p)|
      ensures Samples(PassRows(hd, img, p)[j], hd.f.depth)
    {
      PassRowSamples(hd, img, p, j);
    }
  }

  /** `data` begins with the encoding of the pass. */
  ghost predicate Begins(hd: Header, img: seq<seq<nat>>, types: seq<seq<nat>>, p: nat, data: seq<Byte>)
    requires Picture(hd, img) && Typed(hd, types) && p < 7
  {
    PassData(hd, img, types, p) <= data
  }

  lemma BeginsWith(hd: Header, img: seq<seq<nat>>, types: seq<seq<nat>>, p: nat, data: seq<Byte>)
    requires Picture(hd, img) && Typed(hd, types) && p < 7 && Begins(hd, img, types, p, data)
    ensures var d := PassData(hd, img, types, p); |d| <= |data| && data == d + data[|d|..]
  {
    hide PassData, Picture, Typed;
  }

  lemma PassEncoded(hd: Header, img: seq<seq<nat>>, types: seq<seq<nat>>, p: nat, data: seq<Byte>)
    requires Picture(hd, img) && Typed(hd, types) && p < 7 && !Empty(hd, p) && PassH(p, hd.h) >= 0
    requires Begins(hd, img, types, p, data)
    ensures FilterBytes(hd.f.img_n, hd.f.depth) >= 1 && ImageBytes(PassH(p, hd.h), hd.PassWidth(p)) <= |data|
    ensures ReconImage(data, 0, PassH(p, hd.h), Zeros(hd.PassWidth(p)), FilterBytes(hd.f.img_n, hd.f.depth))
      == Pixels(PassLines(hd, img, p))
  {
    hide *;
    var d := PassData(hd, img, types, p);
    BeginsWith(hd, img, types, p, data);
    PassDataIs(hd, img, types, p);
    EncodedLines(hd.f, PassRows(hd, img, p), types[p], PassW(p, hd.w), data[|d|..]);
  }

  /** The encoded pass is where the de-interlacing loop looks for it. */
  lemma PassBegins(hd: Header, img: seq<seq<nat>>, types: seq<seq<nat>>, more: seq<Byte>, p: nat)
    requires Picture(hd, img) && Typed(hd, types) && p < 7
    ensures var data := EncodePasses(hd, img, types, more);
      && PassStart(hd, p) + PassLen(hd, p) <= |data|
      && Begins(hd, img, types, p, data[PassStart(hd, p)..])
  {
    hide PassW, PassH, PassData, Picture, Typed, PassLen;
    var data := EncodePasses(hd, img, types, more);
    var rest := PassInPlace(hd, img, types, p, 7, more);
    PassesLength(hd, img, types, p);
    PassDataLength(hd, img, types, p);
    assert data[PassStart(hd, p)..] == PassData(hd, img, types, p) + rest;
  }

  lemma PassFound(hd: Header, img: seq<seq<nat>>, types: seq<seq<nat>>, more: seq<Byte>, p: nat)
    requires Picture(hd, img) && Typed(hd, types) && p < 7
    ensures PassOk(hd, EncodePasses(hd, img, types, more), p)
    ensures !Empty(hd, p) && PassH(p, hd.h) >= 0 ==>
      PassImage(hd, EncodePasses(hd, img, types, more), p) == Pixels(PassLines(hd, img, p))
  {
    hide EncodePasses, Typed, PassStart, Begins, ImageBytes, FilterBytes, ReconImage, Zeros, PassLines, Rows, Legal,
      Format.Valid, Header.PassWidth, PassW, PassH;
    PassBegins(hd, img, types, more, p);
    var data := EncodePasses(hd, img, types, more);
    if !Empty(hd, p) {
      PassEncoded(hd, img, types, p, data[PassStart(hd, p)..]);
    }
  }

  /** Sample `c` of a pixel of a pass, after expansion. */
  lemma PassShows(hd: Header, img: seq<seq<nat>>, types: seq<seq<nat>>, more: seq<Byte>, p: nat, i: nat, j: nat, c: nat)
    requires Picture(hd, img) && Typed(hd, types) && p < 7
    requires i < PassW(p, hd.w) && j < PassH(p, hd.h) && c < hd.f.out_n
    ensures PassOk(hd, EncodePasses(hd, img, types, more), p)
    ensures Shows(hd.f, PassOutput(hd, EncodePasses(hd, img, types, more), p), Nth(PassW(p, hd.w), i, j), c,
                  PassRow(hd, img, p, j), i)
  {
    hide PassW, PassH, EncodePasses, PassOk, PassImage, WidthBytes, Lines, Flatten, Image, Rows, Legal, Format.Valid,
      ExpandImage, Shows, Fits, Area, Nth, PassRow;
    PassDataIs(hd, img, types, p);
    PassFound(hd, img, types, more, p);
    LinesPixel(hd.f, PassRows(hd, img, p), types[p], PassW(p, hd.w), i, j, c);
  }

  /** Pixel `i` of row `j` of a pass is the pixel of the image that the pass is for. */
  lemma PassRowSample(hd: Header, img: seq<seq<nat>>, p: nat, i: nat, j: nat, c: nat)
    requires Picture(hd, img) && p < 7 && i < PassW(p, hd.w) && j < PassH(p, hd.h) && c < hd.f.img_n
    ensures i * hd.f.img_n + c < |PassRow(hd, img, p, j)|
    ensures OutY(p, j) < |img| && OutX(p, i) * hd.f.img_n + c < |img[OutY(p, j)]|
    ensures PassRow(hd, img, p, j)[i * hd.f.img_n + c] == img[OutY(p, j)][OutX(p, i) * hd.f.img_n + c]
  {
    hide PassW, PassH, OutX, OutY, Samples, Rows, Legal, Format.Valid;
    var n := hd.f.img_n;
    PlaceInside(i, PassW(p, hd.w), n, c);
    DivMod(i * n + c, n, i, c);
    SampleInside(hd, img, p, j, i * n + c);
    assert PassRow(hd, img, p, j)[i * n + c] == PassSample(hd, img, p, j, i * n + c);
  }

  lemma PassExpected(hd: Header, img: seq<seq<nat>>, p: nat, i: nat, j: nat, c: nat)
    requires Picture(hd, img) && p < 7 && i < PassW(p, hd.w) && j < PassH(p, hd.h) && c < hd.f.out_n
    ensures c < hd.f.img_n ==> i * hd.f.img_n + c < |PassRow(hd, img, p, j)|
    ensures OutY(p, j) < |img| && (c < hd.f.img_n ==> OutX(p, i) * hd.f.img_n + c < |img[OutY(p, j)]|)
    ensures Expected(hd.f, PassRow(hd, img, p, j), i, c) == Expected(hd.f, img[OutY(p, j)], OutX(p, i), c)
  {
    hide PassW, PassH, OutX, OutY, Samples, Rows, Legal, Format.Valid, PassRow, OutLevel, PassOf, Col, Row;
    PassIntoImage(p, hd.w, hd.h, i, j);
    if c < hd.f.img_n {
      PassRowSample(hd, img, p, i, j, c);
    }
  }

  /** Channel `c` of the bytes of a pixel is what is expected for pixel `x` of a row. */
  ghost predicate PixelShows(f: Format, pixel: seq<Byte>, c: nat, ss: seq<nat>, x: nat) {
    && Wide(f) * c + Wide(f) <= |pixel| && (c < f.img_n ==> x * f.img_n + c < |ss|)
    && SampleAt(f, pixel, c) == Expected(f, ss, x, c)
  }

  lemma SourceShows(f: Format, out: seq<Byte>, n: nat, k: nat, c: nat, ss: seq<nat>, i: nat)
    requires Shows(f, out, k, c, ss, i) && k < n
    ensures PixelShows(f, PixelsOf(out, n, f.OutBytes())[k], c, ss, i)
  {
    hide SampleAt, Expected, Format.OutBytes, Wide;
    assert Area(k, f.OutBytes()) == Offset(k, f.OutBytes());
  }

  /** The pixel that the de-interlacing loop takes for (`x`, `y`) shows the sample of the image there. */
  lemma PixelBack(hd: Header, img: seq<seq<nat>>, types: seq<seq<nat>>, more: seq<Byte>, x: nat, y: nat, c: nat)
    requires Picture(hd, img) && Typed(hd, types) && x < hd.w && y < hd.h && c < hd.f.out_n
    ensures 0 <= PassOf(x, y) < 7 && PassOk(hd, EncodePasses(hd, img, types, more), PassOf(x, y)) && y < |img|
    ensures var q := PassOf(x, y);
      PixelShows(hd.f, Get(PassSource(hd, EncodePasses(hd, img, types, more), q), At(PassW(q, hd.w), Col(q, x), Row(q, y))),
                 c, img[y], x)
  {
    hide PassW, PassH, OutX, OutY, Samples, Rows, Legal, Format.Valid, PassRow, PassOf, Col, Row, EncodePasses, PassOk,
      PassOutput, PixelsOf, Shows, Expected, Format.OutBytes;
    ImageFromPass(hd.w, hd.h, x, y);
    var q := PassOf(x, y);
    var i, j := Col(q, x), Row(q, y);
    PassShows(hd, img, types, more, q, i, j, c);
    PassExpected(hd, img, q, i, j, c);
    AtInside(PassW(q, hd.w), PassH(q, hd.h), i, j);
    SourceShows(hd.f, PassOutput(hd, EncodePasses(hd, img, types, more), q), PassW(q, hd.w) * PassH(q, hd.h),
                At(PassW(q, hd.w), i, j), c, PassRow(hd, img, q, j), i);
  }

  /** What the de-interlacing branch of `stbi__create_png_image` answers. */
  ghost predicate Interlaced(hd: Header, data: seq<Byte>, ok: bool, image: seq<seq<Byte>>) {
    && hd.Valid()
    && (ok <==> forall p | 0 <= p < 7 :: PassOk(hd, data, p))
    && (ok ==> Placed(hd, data, image, 7))
  }

  /**
   The round trip: the encoded passes of an image, whatever follows them, are accepted, and
   every channel of every pixel comes back in its place, with opaque alpha where it is added.
   */
  lemma InterlacedImageDecodes(hd: Header, img: seq<seq<nat>>, types: seq<seq<nat>>, more: seq<Byte>,
                               ok: bool, image: seq<seq<Byte>>)
    requires Picture(hd, img) && Typed(hd, types) && Interlaced(hd, EncodePasses(hd, img, types, more), ok, image)
    ensures ok
    ensures forall x: nat, y: nat, c: nat :: x < hd.w && y < hd.h && c < hd.f.out_n ==>
      y < |img| && PixelShows(hd.f, Get(image, At(hd.w, x, y)), c, img[y], x)
  {
    hide PassOk, PassW, PassH, Rows, Legal, Format.Valid, PassOf, Col, Row, EncodePasses, PixelShows, PassSource, Typed;
    var data := EncodePasses(hd, img, types, more);
    forall p: nat | p < 7
      ensures PassOk(hd, data, p)
    {
      PassFound(hd, img, types, more, p);
    }
    forall x: nat, y: nat, c: nat | x < hd.w && y < hd.h && c < hd.f.out_n
      ensures PixelShows(hd.f, Get(image, At(hd.w, x, y)), c, img[y], x)
    {
      PixelBack(hd, img, types, more, x, y, c);
    }
  }
}
