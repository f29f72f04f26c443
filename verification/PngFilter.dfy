/**
 PNG scanline filtering: the filters of section 6 of RFC 2083 with the Paeth predictor as
 `stbi__paeth` computes it, reconstruction as their inverse, and whole filtered images.
 */
module PngFilter {
  import opened Bits

  // ----------------------------------------------------------------- the filters

  function Abs(x: int): int {
    if x < 0 then -x else x
  }

  /** The Paeth predictor as section 6.6 states it: the nearest of three, ties in order a, b, c. */
  function PaethPredictor(a: int, b: int, c: int): int {
    var p := a + b - c;
    var pa, pb, pc := Abs(p - a), Abs(p - b), Abs(p - c);
    if pa <= pb && pa <= pc then a else if pb <= pc then b else c
  }

  /** `stbi__paeth`. */
  function Paeth(a: int, b: int, c: int): int {
    var thresh := c * 3 - (a + b);
    var lo := if a < b then a else b;
    var hi := if a < b then b else a;
    var t0 := if hi <= thresh then lo else c;
    if thresh <= lo then hi else t0
  }

  /** The branch-free formulation is the predictor, for all integers. */
  lemma PaethCorrect(a: int, b: int, c: int)
    ensures Paeth(a, b, c) == PaethPredictor(a, b, c)
  {}

  /** The predictor is the one of the three that is nearest to `a + b - c`, the left one first, then the upper. */
  lemma PaethNearest(a: int, b: int, c: int)
    ensures var p, r := a + b - c, PaethPredictor(a, b, c);
      && (r == a || r == b || r == c)
      && Abs(p - r) <= Abs(p - a) && Abs(p - r) <= Abs(p - b) && Abs(p - r) <= Abs(p - c)
      && (Abs(p - r) == Abs(p - a) ==> r == a)
      && (Abs(p - r) == Abs(p - b) < Abs(p - a) ==> r == b)
  {}

  /** The prediction of filter type `f` from the left, upper and upper-left bytes. */
  function Predict(f: nat, a: Byte, b: Byte, c: Byte): (r: Byte)
    requires f <= 4
  {
    if f == 0 then 0
    else if f == 1 then a
    else if f == 2 then b
    else if f == 3 then (a as int + b as int) / 2
    else PaethPredictor(a, b, c)
  }

  /** The byte `bpp` before position `k`, zero at the left edge. */
  function Left(s: seq<Byte>, k: nat, bpp: nat): Byte
    requires k <= |s|
    requires bpp >= 1
  {
    if k < bpp then 0 else s[k - bpp]
  }

  /** A filtered scanline (section 6). */
  function FilterRow(f: nat, row: seq<Byte>, prior: seq<Byte>, bpp: nat): (r: seq<Byte>)
    requires f <= 4 && |prior| == |row| && bpp >= 1
    ensures |r| == |row|
  {
    seq(|row|, k requires 0 <= k < |row| =>
      (row[k] as int - Predict(f, Left(row, k, bpp), prior[k], Left(prior, k, bpp)) as int) % 256)
  }

  /** The first `n` bytes of a reconstructed scanline. */
  function ReconRow(f: nat, raw: seq<Byte>, prior: seq<Byte>, bpp: nat, n: nat): (r: seq<Byte>)
    requires f <= 4 && |prior| == |raw| && bpp >= 1 && n <= |raw|
    ensures |r| == n
  {
    if n == 0 then []
    else
      var done := ReconRow(f, raw, prior, bpp, n - 1);
      done + [(raw[n - 1] as int
               + Predict(f, Left(done, n - 1, bpp), prior[n - 1], Left(prior, n - 1, bpp)) as int) % 256]
  }

  function Zeros(n: nat): (r: seq<Byte>)
    ensures |r| == n
  {
    seq(n, _ => 0)
  }

  /** Filtered image data: each scanline preceded by its filter type. */
  function FilterImage(types: seq<nat>, rows: seq<seq<Byte>>, prior: seq<Byte>, bpp: nat): seq<Byte>
    requires |types| == |rows| && bpp >= 1
    requires forall i :: 0 <= i < |rows| ==> types[i] <= 4 && |rows[i]| == |prior|
  {
    if |rows| == 0 then []
    else [types[0]] + FilterRow(types[0], rows[0], prior, bpp)
         + FilterImage(types[1..], rows[1..], rows[0], bpp)
  }

  function Flatten(rows: seq<seq<Byte>>): seq<Byte> {
    if |rows| == 0 then [] else rows[0] + Flatten(rows[1..])
  }

  datatype Pixels = Pixels(bytes: seq<Byte>) | InvalidFilter

  function Prepend(row: seq<Byte>, p: Pixels): Pixels {
    match p
    case Pixels(b) => Pixels(row + b)
    case InvalidFilter => InvalidFilter
  }

  /** Size of `y` filtered scanlines of `n` bytes: `img_len`. */
  function ImageBytes(y: nat, n: nat): nat {
    y * (n + 1)
  }

  lemma RowsFit(y: nat, n: nat)
    requires y > 0
    ensures ImageBytes(y, n) == n + 1 + ImageBytes(y - 1, n)
  {}

  /** The scanlines that `y` filtered scanlines at position `at` stand for. */
  function ReconImage(data: seq<Byte>, at: nat, y: nat, prior: seq<Byte>, bpp: nat): Pixels
    requires bpp >= 1 && at + ImageBytes(y, |prior|) <= |data|
    decreases y
  {
    if y == 0 then Pixels([])
    else
      RowsFit(y, |prior|);
      var f := data[at];
      if f > 4 then InvalidFilter
      else
        var raw := data[at + 1..at + 1 + |prior|];
        var row := ReconRow(f, raw, prior, bpp, |raw|);
        Prepend(row, ReconImage(data, at + 1 + |prior|, y - 1, row, bpp))
  }

  // ------------------------------------------------------------------ round trips

  lemma ByteSum(x: Byte, p: Byte)
    ensures ((x as int - p as int) % 256 + p as int) % 256 == x as int
    ensures ((x as int + p as int) % 256 - p as int) % 256 == x as int
  {}

  /** Reconstructing a filtered scanline gives the scanline. */
  lemma {:induction false} RowRoundTrip(f: nat, row: seq<Byte>, prior: seq<Byte>, bpp: nat, n: nat)
    requires f <= 4 && |prior| == |row| && bpp >= 1 && n <= |row|
    ensures ReconRow(f, FilterRow(f, row, prior, bpp), prior, bpp, n) == row[..n]
  {
    hide Predict;
    if n > 0 {
      RowRoundTrip(f, row, prior, bpp, n - 1);
      ByteSum(row[n - 1], Predict(f, Left(row, n - 1, bpp), prior[n - 1], Left(prior, n - 1, bpp)));
      assert row[..n] == row[..n - 1] + [row[n - 1]];
    }
  }

  lemma {:induction false} ReconPrefix(f: nat, raw: seq<Byte>, prior: seq<Byte>, bpp: nat, n: nat, m: nat)
    requires f <= 4 && |prior| == |raw| && bpp >= 1 && n <= m <= |raw|
    ensures ReconRow(f, raw, prior, bpp, m)[..n] == ReconRow(f, raw, prior, bpp, n)
    decreases m
  {
    hide Predict;
    if n < m {
      ReconPrefix(f, raw, prior, bpp, n, m - 1);
    }
  }

  /** Every byte of a reconstructed scanline is predicted from the scanline itself. */
  lemma ReconAt(f: nat, raw: seq<Byte>, prior: seq<Byte>, bpp: nat, k: nat)
    requires f <= 4 && |prior| == |raw| && bpp >= 1 && k < |raw|
    ensures var row := ReconRow(f, raw, prior, bpp, |raw|);
      row[k] == (raw[k] as int + Predict(f, Left(row, k, bpp), prior[k], Left(prior, k, bpp)) as int) % 256
  {
    hide Predict;
    ReconPrefix(f, raw, prior, bpp, k, |raw|);
    ReconPrefix(f, raw, prior, bpp, k + 1, |raw|);
    var row, done := ReconRow(f, raw, prior, bpp, |raw|), ReconRow(f, raw, prior, bpp, k);
    assert Left(row, k, bpp) == Left(done, k, bpp) by {
      if k >= bpp {
        assert row[..k][k - bpp] == row[k - bpp];
      }
    }
    assert row[..k + 1][k] == row[k];
  }

  /**
   The filter types of section 6 by number: none, the byte to the left, the byte above, their
   mean, and the Paeth predictor, each added to the filtered byte.
   */
  lemma FilterTypes(f: nat, raw: seq<Byte>, prior: seq<Byte>, bpp: nat, k: nat)
    requires f <= 4 && |prior| == |raw| && bpp >= 1 && k < |raw|
    ensures var row := ReconRow(f, raw, prior, bpp, |raw|);
      var x, up := raw[k] as int, prior[k] as int;
      var left: int, corner: int := if k < bpp then 0 else row[k - bpp], if k < bpp then 0 else prior[k - bpp];
      && (f == 0 ==> row[k] == x)
      && (f == 1 ==> row[k] == (x + left) % 256)
      && (f == 2 ==> row[k] == (x + up) % 256)
      && (f == 3 ==> row[k] == (x + (left + up) / 2) % 256)
      && (f == 4 ==> row[k] == (x + PaethPredictor(left, up, corner)) % 256)
  {
    hide ReconRow, PaethPredictor;
    ReconAt(f, raw, prior, bpp, k);
  }

  /** Filtering a reconstructed scanline gives the filtered bytes: no data is lost either way. */
  lemma RowRoundTripBack(f: nat, raw: seq<Byte>, prior: seq<Byte>, bpp: nat)
    requires f <= 4 && |prior| == |raw| && bpp >= 1
    ensures FilterRow(f, ReconRow(f, raw, prior, bpp, |raw|), prior, bpp) == raw
  {
    hide Predict, ReconRow;
    var row := ReconRow(f, raw, prior, bpp, |raw|);
    forall k | 0 <= k < |raw|
      ensures FilterRow(f, row, prior, bpp)[k] == raw[k]
    {
      ReconAt(f, raw, prior, bpp, k);
      ByteSum(raw[k], Predict(f, Left(row, k, bpp), prior[k], Left(prior, k, bpp)));
    }
  }

  lemma {:induction false} FilterImageLength(types: seq<nat>, rows: seq<seq<Byte>>, prior: seq<Byte>, bpp: nat)
    requires |types| == |rows| && bpp >= 1
    requires forall i :: 0 <= i < |rows| ==> types[i] <= 4 && |rows[i]| == |prior|
    ensures |FilterImage(types, rows, prior, bpp)| == ImageBytes(|rows|, |prior|)
  {
    hide FilterRow;
    if |rows| > 0 {
      FilterImageLength(types[1..], rows[1..], rows[0], bpp);
      RowsFit(|rows|, |prior|);
    }
  }

  lemma ReconImageStep(data: seq<Byte>, at: nat, y: nat, prior: seq<Byte>, bpp: nat, f: nat, raw: seq<Byte>)
    requires y > 0 && bpp >= 1 && f <= 4 && |raw| == |prior|
    requires at + ImageBytes(y, |prior|) <= |data|
    requires at + 1 + |raw| <= |data| && data[at] == f && data[at + 1..at + 1 + |raw|] == raw
    ensures var row := ReconRow(f, raw, prior, bpp, |raw|);
      && at + 1 + |prior| + ImageBytes(y - 1, |prior|) <= |data|
      && ReconImage(data, at, y, prior, bpp)
         == Prepend(row, ReconImage(data, at + 1 + |prior|, y - 1, row, bpp))
  {
    hide ReconRow;
    RowsFit(y, |prior|);
  }

  lemma LineInPlace(head: seq<Byte>, f: Byte, raw: seq<Byte>, rest: seq<Byte>, tail: seq<Byte>)
    ensures var data := head + ([f] + raw + rest) + tail;
      && |head| + 1 + |raw| <= |data|
      && data[|head|] == f && data[|head| + 1..|head| + 1 + |raw|] == raw
      && data == (head + ([f] + raw)) + rest + tail
  {}

  /** Reconstructing a filtered image gives its scanlines, whatever follows the data. */
  lemma {:induction false} ImageRoundTrip(
      head: seq<Byte>, types: seq<nat>, rows: seq<seq<Byte>>, prior: seq<Byte>, bpp: nat, tail: seq<Byte>)
    requires |types| == |rows| && bpp >= 1
    requires forall i :: 0 <= i < |rows| ==> types[i] <= 4 && |rows[i]| == |prior|
    ensures var data := head + FilterImage(types, rows, prior, bpp) + tail;
      && |head| + ImageBytes(|rows|, |prior|) <= |data|
      && ReconImage(data, |head|, |rows|, prior, bpp) == Pixels(Flatten(rows))
    decreases |rows|
  {
    hide FilterRow, ReconRow, Predict, ImageBytes;
    FilterImageLength(types, rows, prior, bpp);
    if |rows| > 0 {
      var f, row := types[0], rows[0];
      var raw := FilterRow(f, row, prior, bpp);
      var rest := FilterImage(types[1..], rows[1..], row, bpp);
      var data := head + FilterImage(types, rows, prior, bpp) + tail;
      hide ReconImage, FilterImage;
      ImageRoundTrip(head + ([f as Byte] + raw), types[1..], rows[1..], row, bpp, tail);
      LineInPlace(head, f, raw, rest, tail);
      RowRoundTrip(f, row, prior, bpp, |row|);
      assert row[..|row|] == row;
      ReconImageStep(data, |head|, |rows|, prior, bpp, f, raw);
    }
  }
}
