/**
 An encoder of PNG image data, written from RFC 2083, and the round trip through
 `stbi__create_png_image_raw`: whatever the depth, the filter types and the added alpha
 channel, the samples that were encoded come back.

 A row is the sequence of its samples, channel by channel and pixel by pixel.
 */
module PngEncode {
  import opened Bits
  import opened PngFilter
  import opened PngExpand
  import opened PngImage

  /** Formats that section 4.1.1 allows: several channels only with whole bytes. */
  ghost predicate Legal(f: Format) {
    f.Valid() && (f.img_n == 1 || f.depth >= 8)
  }

  /** Rows of `x` pixels. */
  ghost predicate Rows(f: Format, rows: seq<seq<nat>>, x: nat) {
    forall j :: 0 <= j < |rows| ==> |rows[j]| == f.img_n * x && Samples(rows[j], f.depth)
  }

  lemma SampleBound(depth: nat, v: nat)
    requires v < Pow2(depth)
    ensures depth == 8 ==> v < 256
    ensures depth == 16 ==> v < 0x10000
  {
    ShlByte(0);
    Pow2Sixteen();
  }

  /** Byte `b` of a scanline of wide samples: the high byte comes first (section 2.1). */
  function WideByte(ss: seq<nat>, b: nat): Byte
    requires b < 2 * |ss| && Samples(ss, 16)
  {
    SampleBound(16, ss[b / 2]);
    if b % 2 == 0 then ss[b / 2] / 256 else ss[b / 2] % 256
  }

  function NarrowByte(ss: seq<nat>, b: nat): Byte
    requires b < |ss| && Samples(ss, 8)
  {
    SampleBound(8, ss[b]);
    ss[b]
  }

  /** The bytes of a scanline (section 2.3). */
  ghost function Line(ss: seq<nat>, depth: nat): (row: seq<Byte>)
    requires Depth(depth) && Samples(ss, depth)
  {
    if depth < 8 then Pack(ss, depth)
    else if depth == 8 then seq(|ss|, b requires 0 <= b < |ss| => NarrowByte(ss, b))
    else seq(2 * |ss|, b requires 0 <= b < 2 * |ss| => WideByte(ss, b))
  }

  /** Bytes of a line: what the source takes for a scanline. */
  lemma LineLength(ss: seq<nat>, depth: nat, img_n: nat, x: nat)
    requires Depth(depth) && Samples(ss, depth) && |ss| == img_n * x
    ensures |Line(ss, depth)| == WidthBytes(img_n, x, depth)
  {
    hide Pack;
    var m := |ss|;
    if depth == 8 {
      DivMod(m * 8 + 7, 8, m, 7);
    } else if depth == 16 {
      DivMod(m * 16 + 7, 8, 2 * m, 7);
    }
  }

  /** A sample as it is put out: grey levels of less than a byte are scaled to 0 to 255. */
  function OutLevel(f: Format, v: nat): nat
  {
    if f.grey && f.depth < 8 && Pow2(f.depth) > 1 then 255 * v / (Pow2(f.depth) - 1) else v
  }

  lemma ScaledLevel(f: Format, v: nat)
    requires f.depth in {1, 2, 4} && v < Pow2(f.depth)
    ensures f.Scale() * v == OutLevel(f, v)
  {
    Pow2Small();
    if f.grey {
      ScaleIs(f, v);
      DivMod(255 * v, Pow2(f.depth) - 1, f.Scale() * v, 0);
    }
  }

  /** A sample that was encoded is read back. */
  lemma SampleBack(f: Format, ss: seq<nat>, k: nat)
    requires f.Valid() && Samples(ss, f.depth) && k < |ss|
    ensures Has(Line(ss, f.depth), f.depth, k + 1) && InSample(f, Line(ss, f.depth), k) == OutLevel(f, ss[k])
  {
    hide Pack, Packed, Pow2;
    LineHolds(ss, f.depth);
    HasFewer(Line(ss, f.depth), f.depth, |ss|, k + 1);
    if f.depth < 8 {
      UnpackPack(ss, f.depth, k);
      ScaledLevel(f, ss[k]);
    } else if f.depth == 8 {
      assert Line(ss, 8)[k] == NarrowByte(ss, k);
    } else {
      assert Line(ss, 16)[2 * k] == WideByte(ss, 2 * k) && Line(ss, 16)[2 * k + 1] == WideByte(ss, 2 * k + 1);
    }
  }

  lemma LineHolds(ss: seq<nat>, depth: nat)
    requires Depth(depth) && Samples(ss, depth)
    ensures Has(Line(ss, depth), depth, |ss|)
  {
    hide Pack;
  }

  // --------------------------------------------------------------------- one scanline

  /** Bytes of an output sample. */
  function Wide(f: Format): nat {
    if f.depth == 16 then 2 else 1
  }

  /** Output sample `s` of `bytes`, in the byte order of the platform. */
  function SampleAt(f: Format, bytes: seq<Byte>, s: nat): nat
    requires Wide(f) * s + Wide(f) <= |bytes|
  {
    if f.depth != 16 then bytes[s]
    else if f.little then bytes[2 * s] as nat + 256 * bytes[2 * s + 1] as nat
    else 256 * bytes[2 * s] as nat + bytes[2 * s + 1] as nat
  }

  /** What is put out for channel `c` of pixel `i` of a row: its level, or an opaque alpha. */
  function Expected(f: Format, ss: seq<nat>, i: nat, c: nat): nat
    requires c < f.img_n ==> i * f.img_n + c < |ss|
  {
    if c < f.img_n then OutLevel(f, ss[i * f.img_n + c]) else if f.depth == 16 then 0xFFFF else 0xFF
  }

  lemma PlaceInside(i: nat, x: nat, n: nat, c: nat)
    requires i < x && c < n
    ensures i * n + c < x * n == n * x
  {
    Scaled(n, x - i);
    assert n * (x - i) == n * x - i * n;
  }

  lemma SourceOf(f: Format, i: nat, c: nat)
    requires f.Valid() && c < f.out_n
    ensures Source(f, i * f.out_n + c) == if c < f.img_n then i * f.img_n + c else -1
  {
    DivMod(i * f.out_n + c, f.out_n, i, c);
  }

  lemma RowSample(f: Format, row: seq<Byte>, x: nat, s: nat)
    requires f.Valid() && Has(row, f.depth, f.Ins(x)) && s < f.Outs(x)
    ensures Wide(f) * s + Wide(f) <= f.Bytes(x) == |ExpandRow(f, row, x)|
    ensures SampleAt(f, ExpandRow(f, row, x), s) == OutSample(f, row, x, s)
  {
    hide OutSample, Has, Format.Outs;
    var line := ExpandRow(f, row, x);
    if f.depth == 16 {
      assert line[2 * s] == OutByte(f, row, x, 2 * s) && line[2 * s + 1] == OutByte(f, row, x, 2 * s + 1);
    } else {
      assert line[s] == OutByte(f, row, x, s);
    }
  }

  /** Channel `c` of pixel `i` of an encoded row, after expansion. */
  lemma LineBack(f: Format, ss: seq<nat>, x: nat, i: nat, c: nat)
    requires f.Valid() && Samples(ss, f.depth) && |ss| == f.img_n * x && i < x && c < f.out_n
    ensures Has(Line(ss, f.depth), f.depth, f.Ins(x)) && f.Ins(x) == |ss|
    ensures i * f.out_n + c < f.Outs(x) && (c < f.img_n ==> i * f.img_n + c < |ss|)
    ensures OutSample(f, Line(ss, f.depth), x, i * f.out_n + c) == Expected(f, ss, i, c)
  {
    hide Line, OutLevel, Has, InSample, Source, Samples;
    LineHolds(ss, f.depth);
    PlaceInside(i, x, f.out_n, c);
    SourceOf(f, i, c);
    if c < f.img_n {
      PlaceInside(i, x, f.img_n, c);
      SampleBack(f, ss, i * f.img_n + c);
    }
  }

  // ------------------------------------------------------------------ the whole image

  function PixelBytes(f: Format, bytes: seq<Byte>, k: nat): seq<Byte>
    requires Area(k, f.OutBytes()) + f.OutBytes() <= |bytes|
  {
    bytes[Area(k, f.OutBytes())..Area(k, f.OutBytes()) + f.OutBytes()]
  }

  lemma AreaStep(k: nat, n: nat)
    ensures Area(k + 1, n) == Area(k, n) + n && Area(0, n) == 0
  {}

  lemma AreaMonotone(k: nat, m: nat, n: nat)
    requires k <= m
    ensures Area(k, n) <= Area(m, n)
  {}

  /** Line `j` of an expanded image. */
  lemma {:induction false} ImageLine(f: Format, bytes: seq<Byte>, n: nat, x: nat, y: nat, j: nat)
    requires f.Valid() && Fits(f, x, n) && |bytes| == Area(y, n) && j < y
    ensures Area(j, n) + n <= |bytes| && Area(j, f.Bytes(x)) + f.Bytes(x) <= Area(y, f.Bytes(x))
    ensures var b := f.Bytes(x);
      ExpandImage(f, bytes, n, x, y)[Area(j, b)..Area(j, b) + b] == ExpandRow(f, bytes[Area(j, n)..Area(j, n) + n], x)
    decreases y
  {
    hide Area, Format.Bytes, ExpandRow, Format.Valid;
    var b, m := f.Bytes(x), Area(y - 1, n);
    AreaStep(y - 1, n);
    AreaStep(y - 1, b);
    var front := ExpandImage(f, bytes[..m], n, x, y - 1);
    if j < y - 1 {
      ImageLine(f, bytes[..m], n, x, y - 1, j);
      assert bytes[..m][Area(j, n)..Area(j, n) + n] == bytes[Area(j, n)..Area(j, n) + n];
      assert (front + ExpandRow(f, bytes[m..], x))[Area(j, b)..Area(j, b) + b] == front[Area(j, b)..Area(j, b) + b];
    } else {
      assert bytes[m..] == bytes[m..m + n];
    }
  }

  lemma {:induction false} FlattenLine(lines: seq<seq<Byte>>, n: nat, j: nat)
    requires j < |lines| && forall k :: 0 <= k < |lines| ==> |lines[k]| == n
    ensures |Flatten(lines)| == Area(|lines|, n) && Area(j, n) + n <= |Flatten(lines)|
    ensures Flatten(lines)[Area(j, n)..Area(j, n) + n] == lines[j]
    decreases |lines|
  {
    hide Area;
    var rest := lines[1..];
    AreaStep(|rest|, n);
    if |rest| == 0 {
      AreaStep(0, n);
      assert Flatten(rest) == [];
    } else {
      FlattenLine(rest, n, if j == 0 then 0 else j - 1);
      AreaStep(0, n);
      if j > 0 {
        AreaStep(j - 1, n);
        assert Flatten(lines)[Area(j, n)..Area(j, n) + n] == Flatten(rest)[Area(j - 1, n)..Area(j - 1, n) + n];
      }
    }
  }

  /** Number of pixel `i` of row `j` in an image of width `x`. */
  function Nth(x: nat, i: nat, j: nat): nat {
    j * x + i
  }

  lemma Regrouped(j: nat, x: nat, i: nat, ob: nat)
    requires i < x
    ensures Area(Nth(x, i, j), ob) == Area(j, Area(x, ob)) + Area(i, ob)
    ensures Area(i, ob) + ob <= Area(x, ob)
  {
    assert (j * x + i) * ob == j * (x * ob) + i * ob;
    assert i * ob + ob == (i + 1) * ob;
    AreaMonotone(i + 1, x, ob);
  }

  lemma BytesAreArea(f: Format, x: nat)
    ensures f.Bytes(x) == Area(x, f.OutBytes())
  {
    Twice(x, f.out_n);
  }

  lemma Twice(a: nat, b: nat)
    ensures a * (b * 2) == 2 * (a * b)
  {}

  lemma SliceOfSlice(s: seq<Byte>, a: nat, n: nat, o: nat, m: nat)
    requires o + m <= n && a + n <= |s|
    ensures s[a..a + n][o..o + m] == s[a + o..a + o + m]
  {
    var inner, direct := s[a..a + n][o..o + m], s[a + o..a + o + m];
    forall k | 0 <= k < m
      ensures inner[k] == direct[k]
    {
      assert s[a..a + n][o + k] == s[a + (o + k)];
    }
  }

  /** A pixel of an image is a pixel of its line. */
  lemma PixelOfLine(f: Format, out: seq<Byte>, x: nat, y: nat, i: nat, j: nat)
    requires |out| == Area(y, f.Bytes(x)) && i < x && j < y
    ensures Area(j, f.Bytes(x)) + f.Bytes(x) <= |out|
    ensures Area(i, f.OutBytes()) + f.OutBytes() <= f.Bytes(x)
    ensures Area(Nth(x, i, j), f.OutBytes()) + f.OutBytes() <= |out|
    ensures PixelBytes(f, out, Nth(x, i, j))
      == PixelBytes(f, out[Area(j, f.Bytes(x))..Area(j, f.Bytes(x)) + f.Bytes(x)], i)
  {
    hide Area, Format.Bytes, Format.OutBytes, Nth;
    var b, ob := f.Bytes(x), f.OutBytes();
    BytesAreArea(f, x);
    Regrouped(j, x, i, ob);
    AreaStep(j, b);
    AreaMonotone(j + 1, y, b);
    assert Area(Nth(x, i, j), ob) == Area(j, b) + Area(i, ob);
    SliceOfSlice(out, Area(j, b), b, Area(i, ob), ob);
  }

  /** Sample `c` of pixel `i` of a line. */
  lemma SampleOfPixel(f: Format, line: seq<Byte>, x: nat, i: nat, c: nat)
    requires |line| == f.Bytes(x) && i < x && c < f.out_n
    ensures Area(i, f.OutBytes()) + f.OutBytes() <= |line|
    ensures Wide(f) * c + Wide(f) <= f.OutBytes()
    ensures Wide(f) * (i * f.out_n + c) + Wide(f) <= |line|
    ensures SampleAt(f, PixelBytes(f, line, i), c) == SampleAt(f, line, i * f.out_n + c)
  {
    BytesAreArea(f, x);
    Regrouped(0, x, i, f.OutBytes());
    Twice(i, f.out_n);
    assert Area(i, f.OutBytes()) == Wide(f) * (i * f.out_n);
    hide Area;
    assert Wide(f) * (i * f.out_n + c) == Area(i, f.OutBytes()) + Wide(f) * c;
  }

  // --------------------------------------------------------------------- the encoder

  ghost function Lines(rows: seq<seq<nat>>, depth: nat): (lines: seq<seq<Byte>>)
    requires Depth(depth) && forall j :: 0 <= j < |rows| ==> Samples(rows[j], depth)
    ensures |lines| == |rows|
  {
    seq(|rows|, j requires 0 <= j < |rows| => Line(rows[j], depth))
  }

  /** Bytes of a pixel, rounded up to one (section 6). */
  function PixelSize(f: Format): nat {
    (f.img_n * f.depth + 7) / 8
  }

  /** An image, a filter type for each row, and its encoding. */
  ghost predicate Image(f: Format, rows: seq<seq<nat>>, types: seq<nat>, x: nat) {
    && Legal(f) && x >= 1 && Rows(f, rows, x)
    && |types| == |rows| && forall j :: 0 <= j < |types| ==> types[j] <= 4
  }

  lemma LinesAlike(f: Format, rows: seq<seq<nat>>, types: seq<nat>, x: nat)
    requires Image(f, rows, types, x)
    ensures forall j :: 0 <= j < |rows| ==> |Lines(rows, f.depth)[j]| == WidthBytes(f.img_n, x, f.depth)
  {
    hide Line, WidthBytes, Samples;
    forall j | 0 <= j < |rows|
      ensures |Lines(rows, f.depth)[j]| == WidthBytes(f.img_n, x, f.depth)
    {
      LineLength(rows[j], f.depth, f.img_n, x);
    }
  }

  lemma PixelSizeIs(f: Format)
    requires Legal(f)
    ensures PixelSize(f) == FilterBytes(f.img_n, f.depth) >= 1
  {}

  /** The filtered data of an image. */
  ghost function EncodeImage(f: Format, rows: seq<seq<nat>>, types: seq<nat>, x: nat): seq<Byte>
    requires Image(f, rows, types, x)
  {
    LinesAlike(f, rows, types, x);
    PixelSizeIs(f);
    FilterImage(types, Lines(rows, f.depth), Zeros(WidthBytes(f.img_n, x, f.depth)), PixelSize(f))
  }

  /** Every row takes a byte for its filter type and the fewest bytes that hold its samples. */
  lemma EncodeLength(f: Format, rows: seq<seq<nat>>, types: seq<nat>, x: nat)
    requires Image(f, rows, types, x)
    ensures |EncodeImage(f, rows, types, x)| == ImageBytes(|rows|, WidthBytes(f.img_n, x, f.depth))
    ensures forall j :: 0 <= j < |rows| ==> |Line(rows[j], f.depth)| == WidthBytes(f.img_n, x, f.depth)
  {
    hide Line, WidthBytes, Samples, FilterImage, ImageBytes;
    LinesAlike(f, rows, types, x);
    PixelSizeIs(f);
    FilterImageLength(types, Lines(rows, f.depth), Zeros(WidthBytes(f.img_n, x, f.depth)), PixelSize(f));
    forall j | 0 <= j < |rows|
      ensures |Line(rows[j], f.depth)| == WidthBytes(f.img_n, x, f.depth)
    {
      LineLength(rows[j], f.depth, f.img_n, x);
    }
  }

  /** The scanlines of encoded data are those of the image, whatever follows. */
  lemma EncodedLines(f: Format, rows: seq<seq<nat>>, types: seq<nat>, x: nat, more: seq<Byte>)
    requires Image(f, rows, types, x)
    ensures var n, data := WidthBytes(f.img_n, x, f.depth), EncodeImage(f, rows, types, x) + more;
      && FilterBytes(f.img_n, f.depth) >= 1 && ImageBytes(|rows|, n) <= |data|
      && ReconImage(data, 0, |rows|, Zeros(n), FilterBytes(f.img_n, f.depth)) == Pixels(Flatten(Lines(rows, f.depth)))
  {
    hide Line, Lines, WidthBytes, Samples, FilterImage, ImageBytes, ReconImage, Flatten;
    LinesAlike(f, rows, types, x);
    PixelSizeIs(f);
    var prior := Zeros(WidthBytes(f.img_n, x, f.depth));
    ImageRoundTrip([], types, Lines(rows, f.depth), prior, PixelSize(f), more);
    assert [] + EncodeImage(f, rows, types, x) + more == EncodeImage(f, rows, types, x) + more;
  }

  /** Channel `c` of pixel `k` of the output is what is expected for pixel `i` of the row `ss`. */
  ghost predicate Shows(f: Format, out: seq<Byte>, k: nat, c: nat, ss: seq<nat>, i: nat) {
    && Area(k, f.OutBytes()) + f.OutBytes() <= |out| && Wide(f) * c + Wide(f) <= f.OutBytes()
    && (c < f.img_n ==> i * f.img_n + c < |ss|)
    && SampleAt(f, PixelBytes(f, out, k), c) == Expected(f, ss, i, c)
  }

  /** The expanded pixels of the scanlines of an image are its samples. */
  lemma LinesPixel(f: Format, rows: seq<seq<nat>>, types: seq<nat>, x: nat, i: nat, j: nat, c: nat)
    requires Image(f, rows, types, x) && i < x && j < |rows| && c < f.out_n
    ensures var n, bytes := WidthBytes(f.img_n, x, f.depth), Flatten(Lines(rows, f.depth));
      && Fits(f, x, n) && |bytes| == Area(|rows|, n)
      && Shows(f, ExpandImage(f, bytes, n, x, |rows|), Nth(x, i, j), c, rows[j], i)
  {
    hide Line, WidthBytes, Samples, Flatten, ExpandImage, ExpandRow, Area, SampleAt, PixelBytes, Expected, OutSample,
      Fits, Has, Nth, Format.Bytes, Format.OutBytes, Format.Outs, Format.Ins, Wide;
    var n, lines := WidthBytes(f.img_n, x, f.depth), Lines(rows, f.depth);
    LinesAlike(f, rows, types, x);
    WidthFits(f, x);
    FlattenLine(lines, n, j);
    ImageLine(f, Flatten(lines), n, x, |rows|, j);
    var out := ExpandImage(f, Flatten(lines), n, x, |rows|);
    LineBack(f, rows[j], x, i, c);
    RowSample(f, lines[j], x, i * f.out_n + c);
    PixelOfLine(f, out, x, |rows|, i, j);
    SampleOfPixel(f, ExpandRow(f, lines[j], x), x, i, c);
  }

  /** What `stbi__create_png_image_raw` answers to encoded data with `more` behind it. */
  ghost predicate Answered(f: Format, rows: seq<seq<nat>>, types: seq<nat>, x: nat, more: seq<Byte>,
                           r: PngResult, out: seq<Byte>, bytes: seq<Byte>)
  {
    Image(f, rows, types, x) && Created(EncodeImage(f, rows, types, x) + more, f, x, |rows|, r, out, bytes)
  }

  lemma IsImage(f: Format, rows: seq<seq<nat>>, types: seq<nat>, x: nat, more: seq<Byte>,
                r: PngResult, out: seq<Byte>, bytes: seq<Byte>)
    requires Answered(f, rows, types, x, more, r, out, bytes)
    ensures Image(f, rows, types, x)
  {}

  /** Encoded data, whatever follows it, is accepted. */
  lemma EncodedAccepted(f: Format, rows: seq<seq<nat>>, types: seq<nat>, x: nat, more: seq<Byte>,
                        r: PngResult, out: seq<Byte>, bytes: seq<Byte>)
    requires Answered(f, rows, types, x, more, r, out, bytes)
    ensures r == Ok && bytes == Flatten(Lines(rows, f.depth))
    ensures var n := WidthBytes(f.img_n, x, f.depth);
      Fits(f, x, n) && |bytes| == Area(|rows|, n) && out == ExpandImage(f, bytes, n, x, |rows|)
  {
    hide Lines, WidthBytes, Samples, Flatten, ExpandImage, Area, ReconImage, ImageBytes, FilterBytes, Fits, EncodeImage,
      Zeros, Rows, Legal, Format.Bytes;
    EncodedLines(f, rows, types, x, more);
    WidthFits(f, x);
  }

  /** Every channel of every pixel of the output is as expected for the image. */
  ghost predicate Decoded(f: Format, rows: seq<seq<nat>>, x: nat, out: seq<Byte>) {
    forall i: nat, j: nat, c: nat :: i < x && j < |rows| && c < f.out_n ==> Shows(f, out, Nth(x, i, j), c, rows[j], i)
  }

  /**
   The round trip: encoded data is accepted, and the output is the levels of the samples
   that were encoded, with opaque alpha where it is added.
   */
  lemma EncodedImageDecodes(f: Format, rows: seq<seq<nat>>, types: seq<nat>, x: nat, more: seq<Byte>,
                            r: PngResult, out: seq<Byte>, bytes: seq<Byte>)
    requires Answered(f, rows, types, x, more, r, out, bytes)
    ensures r == Ok && Decoded(f, rows, x, out)
  {
    IsImage(f, rows, types, x, more, r, out, bytes);
    hide Answered, Image, Shows, Lines, ExpandImage, Flatten, WidthBytes, Fits, Area, Nth;
    EncodedAccepted(f, rows, types, x, more, r, out, bytes);
    forall i: nat, j: nat, c: nat | i < x && j < |rows| && c < f.out_n
      ensures Shows(f, out, Nth(x, i, j), c, rows[j], i)
    {
      LinesPixel(f, rows, types, x, i, j, c);
    }
  }
}
