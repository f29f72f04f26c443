/**
 Adam7 interlacing (section 2.6 of RFC 2083) and the de-interlacing loop of
 `stbi__create_png_image`: seven reduced images whose pixels are scattered over the
 final one, at every sample depth and with or without an added alpha channel.
 */
module Adam7 {
  import opened Bits
  import opened PngFilter
  import opened PngExpand
  import opened PngImage

  // ------------------------------------------------------------------- the pattern

  /** Figure of section 2.6: the pass, counted from 1, that transmits each pixel of an 8 by 8 tile. */
  const PATTERN: seq<seq<nat>> := [
    [1, 6, 4, 6, 2, 6, 4, 6],
    [7, 7, 7, 7, 7, 7, 7, 7],
    [5, 6, 5, 6, 5, 6, 5, 6],
    [7, 7, 7, 7, 7, 7, 7, 7],
    [3, 6, 4, 6, 3, 6, 4, 6],
    [7, 7, 7, 7, 7, 7, 7, 7],
    [5, 6, 5, 6, 5, 6, 5, 6],
    [7, 7, 7, 7, 7, 7, 7, 7]]

  /** The pass, counted from 0, of pixel (x, y). */
  function PassOf(x: nat, y: nat): int {
    PATTERN[y % 8][x % 8] - 1
  }

  // -------------------------------------------------------------- the source's tables

  function XOrig(p: nat): nat
    requires p < 7
  {
    [0, 4, 0, 2, 0, 1, 0][p]
  }

  function YOrig(p: nat): nat
    requires p < 7
  {
    [0, 0, 4, 0, 2, 0, 1][p]
  }

  function XSpc(p: nat): nat
    requires p < 7
    ensures XSpc(p) in {1, 2, 4, 8}
  {
    [8, 8, 4, 4, 2, 2, 1][p]
  }

  function YSpc(p: nat): nat
    requires p < 7
    ensures YSpc(p) in {2, 4, 8}
  {
    [8, 8, 8, 4, 4, 2, 2][p]
  }

  /** Width of the reduced image of pass `p`. */
  function PassW(p: nat, w: nat): nat
    requires p < 7
  {
    (w - XOrig(p) + XSpc(p) - 1) / XSpc(p)
  }

  function PassH(p: nat, h: nat): nat
    requires p < 7
  {
    (h - YOrig(p) + YSpc(p) - 1) / YSpc(p)
  }

  function OutX(p: nat, i: nat): nat
    requires p < 7
  {
    i * XSpc(p) + XOrig(p)
  }

  function OutY(p: nat, j: nat): nat
    requires p < 7
  {
    j * YSpc(p) + YOrig(p)
  }

  /** Column of the reduced image that carries final column `x`. */
  function Col(p: nat, x: nat): int
    requires p < 7
  {
    (x - XOrig(p)) / XSpc(p)
  }

  function Row(p: nat, y: nat): int
    requires p < 7
  {
    (y - YOrig(p)) / YSpc(p)
  }

  // ---------------------------------------------------------------------- bijection

  /** A column is one of pass `p`'s exactly when it has the pass's residue. */
  predicate OnCol(p: nat, x: nat)
    requires p < 7
  {
    x % XSpc(p) == XOrig(p)
  }

  predicate OnRow(p: nat, y: nat)
    requires p < 7
  {
    y % YSpc(p) == YOrig(p)
  }

  lemma PatternRow(p: nat, a: nat, b: nat)
    requires p < 7 && a < 8 && b < 8
    ensures PATTERN[b][a] - 1 == p <==> OnCol(p, a) && OnRow(p, b)
  {
    var row := PATTERN[b];
    if b == 0 {
      assert row == [1, 6, 4, 6, 2, 6, 4, 6];
      assert OnRow(p, b) <==> p in {0, 1, 3, 5};
    } else if b == 4 {
      assert row == [3, 6, 4, 6, 3, 6, 4, 6];
      assert OnRow(p, b) <==> p in {2, 3, 5};
    } else if b == 2 || b == 6 {
      assert row == [5, 6, 5, 6, 5, 6, 5, 6];
      assert OnRow(p, b) <==> p in {4, 5};
    } else {
      assert row == [7, 7, 7, 7, 7, 7, 7, 7];
      assert OnRow(p, b) <==> p == 6;
    }
  }

  lemma Residues(x: nat)
    ensures (x % 8) % 4 == x % 4 && (x % 8) % 2 == x % 2
  {
    var q, r := x / 8, x % 8;
    DivMod(x, 4, 2 * q + r / 4, r % 4);
    DivMod(x, 2, 4 * q + r / 2, r % 2);
  }

  lemma ColModulo(p: nat, x: nat)
    requires p < 7
    ensures OnCol(p, x % 8) == OnCol(p, x)
  {
    Residues(x);
    assert XSpc(p) in {1, 2, 4, 8};
    hide XSpc, XOrig;
  }

  lemma RowModulo(p: nat, y: nat)
    requires p < 7
    ensures OnRow(p, y % 8) == OnRow(p, y)
  {
    Residues(y);
    assert YSpc(p) in {2, 4, 8};
    hide YSpc, YOrig;
  }

  /** The published pattern is the one the source's origins and spacings generate. */
  lemma PassIs(p: nat, x: nat, y: nat)
    requires p < 7
    ensures PassOf(x, y) == p <==> OnCol(p, x) && OnRow(p, y)
  {
    PatternRow(p, x % 8, y % 8);
    ColModulo(p, x);
    RowModulo(p, y);
  }

  lemma PatternRange(x: nat, y: nat)
    ensures 0 <= PassOf(x, y) < 7
  {
    var row := PATTERN[y % 8];
    assert forall k :: 0 <= k < 8 ==> 1 <= row[k] <= 7;
  }

  /** One axis: the positions below `n` with residue `o` are `o`, `o + s`, and so on, in order. */
  lemma AxisBack(n: int, o: int, s: int, x: int)
    requires 0 <= o < s && 0 <= x < n && x % s == o
    ensures 0 <= (x - o) / s < (n - o + s - 1) / s && (x - o) / s * s + o == x
  {
    var q, m := x / s, n - o + s - 1;
    DivMod(x - o, s, q, 0);
    assert s * q + s <= m;
    Scaled(s, m / s - q);
    assert s * (m / s - q) == s * (m / s) - s * q;
  }

  lemma AxisOut(n: int, o: int, s: int, i: int)
    requires 0 <= o < s && 0 <= i < (n - o + s - 1) / s
    ensures i * s + o < n && (i * s + o) % s == o && (i * s + o - o) / s == i
  {
    var q := (n - o + s - 1) / s;
    Scaled(s, q - i);
    assert s * (q - i) == s * q - s * i;
    assert i * s == s * i;
    DivMod(i * s + o, s, i, o);
    DivMod(i * s, s, i, 0);
  }

  lemma Origins(p: nat)
    requires p < 7
    ensures XOrig(p) < XSpc(p) && YOrig(p) < YSpc(p)
  {}

  lemma ColumnBack(p: nat, w: nat, x: nat)
    requires p < 7 && x < w && OnCol(p, x)
    ensures 0 <= Col(p, x) < PassW(p, w) && OutX(p, Col(p, x)) == x
  {
    hide XOrig, XSpc;
    Origins(p);
    AxisBack(w, XOrig(p), XSpc(p), x);
  }

  lemma RowBack(p: nat, h: nat, y: nat)
    requires p < 7 && y < h && OnRow(p, y)
    ensures 0 <= Row(p, y) < PassH(p, h) && OutY(p, Row(p, y)) == y
  {
    hide YOrig, YSpc;
    Origins(p);
    AxisBack(h, YOrig(p), YSpc(p), y);
  }

  lemma ColumnOut(p: nat, w: nat, i: nat)
    requires p < 7 && i < PassW(p, w)
    ensures OutX(p, i) < w && OnCol(p, OutX(p, i)) && Col(p, OutX(p, i)) == i
  {
    hide XOrig, XSpc;
    Origins(p);
    AxisOut(w, XOrig(p), XSpc(p), i);
  }

  lemma RowOut(p: nat, h: nat, j: nat)
    requires p < 7 && j < PassH(p, h)
    ensures OutY(p, j) < h && OnRow(p, OutY(p, j)) && Row(p, OutY(p, j)) == j
  {
    hide YOrig, YSpc;
    Origins(p);
    AxisOut(h, YOrig(p), YSpc(p), j);
  }

  /** A pixel of a pass lands inside the image, on a pixel of that pass, and is found again there. */
  lemma PassIntoImage(p: nat, w: nat, h: nat, i: nat, j: nat)
    requires p < 7 && i < PassW(p, w) && j < PassH(p, h)
    ensures OutX(p, i) < w && OutY(p, j) < h
    ensures PassOf(OutX(p, i), OutY(p, j)) == p
    ensures Col(p, OutX(p, i)) == i && Row(p, OutY(p, j)) == j
  {
    hide PassOf, PassW, PassH, OutX, OutY, Col, Row, OnCol, OnRow;
    ColumnOut(p, w, i);
    RowOut(p, h, j);
    PassIs(p, OutX(p, i), OutY(p, j));
  }

  /** Every pixel of the image is a pixel of its pass. */
  lemma ImageFromPass(w: nat, h: nat, x: nat, y: nat)
    requires x < w && y < h
    ensures 0 <= PassOf(x, y) < 7
    ensures var p := PassOf(x, y);
      && 0 <= Col(p, x) < PassW(p, w) && 0 <= Row(p, y) < PassH(p, h)
      && OutX(p, Col(p, x)) == x && OutY(p, Row(p, y)) == y
  {
    hide PassOf, PassW, PassH, OutX, OutY, Col, Row, OnCol, OnRow;
    PatternRange(x, y);
    PassIs(PassOf(x, y), x, y);
    ColumnBack(PassOf(x, y), w, x);
    RowBack(PassOf(x, y), h, y);
  }

  /** So exactly one (pass, column, row) writes each pixel of the image. */
  lemma EveryPixelOnce(w: nat, h: nat, x: nat, y: nat, p: nat, i: nat, j: nat)
    requires x < w && y < h && p < 7 && i < PassW(p, w) && j < PassH(p, h)
    ensures (OutX(p, i) == x && OutY(p, j) == y) <==> (p == PassOf(x, y) && i == Col(p, x) && j == Row(p, y))
  {
    hide PassOf, PassW, PassH, OutX, OutY, Col, Row, OnCol, OnRow;
    PassIntoImage(p, w, h, i, j);
    ImageFromPass(w, h, x, y);
  }

  // -------------------------------------------------------------------------- sizes

  /** Pixels in the passes before `p`. */
  function PassPixels(p: nat, w: nat, h: nat): int
    requires p <= 7
  {
    if p == 0 then 0 else PassPixels(p - 1, w, h) + PassW(p - 1, w) * PassH(p - 1, h)
  }

  lemma Doubled(s: int, m: int)
    ensures s * (2 * m) == 2 * s * m && s * (2 * m + 1) == 2 * s * m + s && 2 * s * (m + 1) == 2 * s * m + 2 * s
  {}

  /** Numbers below `v` on a spacing `s` split into those on twice the spacing and the others. */
  lemma Halves(v: nat, s: nat, d: nat)
    requires s > 0 && d == 2 * s
    ensures v / d + (v + s) / d == v / s
  {
    var t, u := v / s, v % s;
    var m := t / 2;
    Doubled(s, m);
    if t % 2 == 0 {
      assert v == d * m + u;
      DivMod(v, d, m, u);
      DivMod(v + s, d, m, s + u);
    } else {
      assert v == d * m + (s + u);
      DivMod(v, d, m, s + u);
      assert v + s == d * (m + 1) + u;
      DivMod(v + s, d, m + 1, u);
    }
  }

  lemma Widths(w: nat)
    ensures PassW(0, w) + PassW(1, w) == PassW(2, w)
    ensures PassW(2, w) + PassW(3, w) == PassW(4, w)
    ensures PassW(4, w) + PassW(5, w) == w == PassW(6, w)
  {
    Halves(w + 3, 4, 8);
    Halves(w + 1, 2, 4);
    Halves(w, 1, 2);
    assert PassW(0, w) == (w + 7) / 8 && PassW(1, w) == (w + 3) / 8 && PassW(2, w) == (w + 3) / 4;
    assert PassW(3, w) == (w + 1) / 4 && PassW(4, w) == (w + 1) / 2 && PassW(5, w) == w / 2;
  }

  lemma Heights(h: nat)
    ensures PassH(0, h) == PassH(1, h)
    ensures PassH(0, h) + PassH(2, h) == PassH(3, h)
    ensures PassH(3, h) + PassH(4, h) == PassH(5, h)
    ensures PassH(5, h) + PassH(6, h) == h
  {
    Halves(h + 3, 4, 8);
    Halves(h + 1, 2, 4);
    Halves(h, 1, 2);
    assert PassH(0, h) == (h + 7) / 8 && PassH(2, h) == (h + 3) / 8 && PassH(3, h) == (h + 3) / 4;
    assert PassH(4, h) == (h + 1) / 4 && PassH(5, h) == (h + 1) / 2 && PassH(6, h) == h / 2;
  }

  lemma SumOfPasses(w0: int, w1: int, w3: int, w5: int, h0: int, h2: int, h4: int, h6: int)
    ensures
      w0 * h0 + w1 * h0 + (w0 + w1) * h2 + w3 * (h0 + h2) + (w0 + w1 + w3) * h4
      + w5 * (h0 + h2 + h4) + (w0 + w1 + w3 + w5) * h6
      == (w0 + w1 + w3 + w5) * (h0 + h2 + h4 + h6)
  {}

  /** The passes hold as many pixels as the image. */
  lemma PassSizesSum(w: nat, h: nat)
    ensures PassPixels(7, w, h) == w * h
  {
    hide PassW, PassH;
    Widths(w);
    Heights(h);
    SumOfPasses(PassW(0, w), PassW(1, w), PassW(3, w), PassW(5, w),
                PassH(0, h), PassH(2, h), PassH(4, h), PassH(6, h));
    assert PassPixels(1, w, h) == PassW(0, w) * PassH(0, h);
    assert PassPixels(3, w, h) == PassPixels(1, w, h) + PassW(1, w) * PassH(1, h) + PassW(2, w) * PassH(2, h);
    assert PassPixels(5, w, h) == PassPixels(3, w, h) + PassW(3, w) * PassH(3, h) + PassW(4, w) * PassH(4, h);
    assert PassPixels(7, w, h) == PassPixels(5, w, h) + PassW(5, w) * PassH(5, h) + PassW(6, w) * PassH(6, h);
  }

  // ------------------------------------------------------------- pixels in a buffer

  /** Offset of pixel `k` in a buffer of pixels of `ob` bytes. */
  function Offset(k: nat, ob: nat): nat {
    k * ob
  }

  lemma OffsetStep(k: nat, ob: nat)
    ensures Offset(k + 1, ob) == Offset(k, ob) + ob
  {}

  lemma OffsetMonotone(k: nat, m: nat, ob: nat)
    requires k <= m
    ensures Offset(k, ob) <= Offset(m, ob)
  {}

  /** The first `n` pixels of a buffer. */
  ghost function PixelsOf(buf: seq<Byte>, n: nat, ob: nat): (r: seq<seq<Byte>>)
    ensures |r| == n
  {
    seq(n, k requires 0 <= k < n =>
      if Offset(k, ob) + ob <= |buf| then buf[Offset(k, ob)..Offset(k, ob) + ob] else [])
  }

  lemma PixelAt(buf: seq<Byte>, n: nat, ob: nat, k: nat)
    requires Offset(n, ob) <= |buf| && k < n
    ensures Offset(k, ob) + ob <= |buf|
    ensures PixelsOf(buf, n, ob)[k] == buf[Offset(k, ob)..Offset(k, ob) + ob]
  {
    hide Offset;
    OffsetStep(k, ob);
    OffsetMonotone(k + 1, n, ob);
  }

  lemma PixelsApart(k: nat, q: nat, ob: nat)
    requires k != q
    ensures Offset(k, ob) + ob <= Offset(q, ob) || Offset(q, ob) + ob <= Offset(k, ob)
  {
    hide Offset;
    OffsetStep(k, ob);
    OffsetStep(q, ob);
    if q < k {
      OffsetMonotone(q + 1, k, ob);
    } else {
      OffsetMonotone(k + 1, q, ob);
    }
  }

  lemma PixelWritten(before: seq<Byte>, after: seq<Byte>, k: nat, n: nat, ob: nat)
    requires |before| == |after| && k < n && Offset(n, ob) <= |after| && Offset(k, ob) + ob <= |after|
    requires forall i :: 0 <= i < |after| && !(Offset(k, ob) <= i < Offset(k, ob) + ob) ==> after[i] == before[i]
    ensures PixelsOf(after, n, ob) == PixelsOf(before, n, ob)[k := after[Offset(k, ob)..Offset(k, ob) + ob]]
  {
    hide Offset;
    forall q | 0 <= q < n
      ensures PixelsOf(after, n, ob)[q]
        == PixelsOf(before, n, ob)[k := after[Offset(k, ob)..Offset(k, ob) + ob]][q]
    {
      hide PixelsOf;
      PixelAt(after, n, ob, q);
      PixelAt(before, n, ob, q);
      if q != k {
        PixelsApart(k, q, ob);
      }
    }
  }

  /** `memcpy` of one pixel. */
  method CopyPixel(final: array<Byte>, k: nat, out: array<Byte>, m: nat, ob: nat, ghost n: nat, ghost u: nat)
    requires final != out && k < n && m < u
    requires Offset(n, ob) == final.Length && Offset(u, ob) <= out.Length
    modifies final
    ensures PixelsOf(final[..], n, ob) == old(PixelsOf(final[..], n, ob))[k := PixelsOf(out[..], u, ob)[m]]
  {
    hide Offset, PixelsOf;
    ghost var before := final[..];
    PixelAt(before, n, ob, k);
    PixelAt(out[..], u, ob, m);
    var to, from := Offset(k, ob), Offset(m, ob);
    forall b | 0 <= b < ob {
      final[to + b] := out[from + b];
    }
    PixelAt(out[..], u, ob, m);
    assert final[to..to + ob] == out[from..from + ob];
    assert final[..][to..to + ob] == final[to..to + ob] && out[..][from..from + ob] == out[from..from + ob];
    PixelWritten(before, final[..], k, n, ob);
    assert before == old(final[..]);
  }

  /** Index of pixel (x, y) in an image of width `w`. */
  function At(w: nat, x: int, y: int): int {
    y * w + x
  }

  lemma AtInside(w: nat, h: nat, x: nat, y: nat)
    requires x < w && y < h
    ensures 0 <= At(w, x, y) < w * h
  {
    Scaled(w, h - y);
    assert w * (h - y) == w * h - y * w;
  }

  lemma AtInjective(w: nat, x: nat, y: nat, x': nat, y': nat)
    requires x < w && x' < w && At(w, x, y) == At(w, x', y')
    ensures x == x' && y == y'
  {
    DivMod(y * w + x, w, y, x);
    DivMod(y' * w + x', w, y', x');
  }

  // --------------------------------------------------------------- scattering a pass

  function Get(s: seq<seq<Byte>>, k: int): seq<Byte> {
    if 0 <= k < |s| then s[k] else []
  }

  /** The copy loop has been over pixel (x, y) when it is at row `j`, column `i` of pass `p`. */
  ghost predicate Done(p: nat, j: nat, i: nat, x: nat, y: nat)
    requires p < 7
  {
    PassOf(x, y) == p && (Row(p, y) < j || (Row(p, y) == j && Col(p, x) < i))
  }

  lemma DoneStep(p: nat, w: nat, h: nat, j: nat, i: nat, x: nat, y: nat)
    requires p < 7 && i < PassW(p, w) && j < PassH(p, h) && x < w && y < h
    ensures Done(p, j, i + 1, x, y) <==> Done(p, j, i, x, y) || (x == OutX(p, i) && y == OutY(p, j))
    ensures x == OutX(p, i) && y == OutY(p, j) ==> Col(p, x) == i && Row(p, y) == j
  {
    hide PassOf, PassW, PassH, OutX, OutY, Col, Row;
    EveryPixelOnce(w, h, x, y, p, i, j);
  }

  lemma DoneRow(p: nat, w: nat, h: nat, j: nat, x: nat, y: nat)
    requires p < 7 && j < PassH(p, h) && x < w && y < h
    ensures Done(p, j, PassW(p, w), x, y) <==> Done(p, j + 1, 0, x, y)
  {
    hide PassOf, PassW, PassH, OutX, OutY, Col, Row;
    ImageFromPass(w, h, x, y);
  }

  /** `now` is `before` with the pixels the copy loop has been over taken from `src`. */
  ghost predicate Scattered(now: seq<seq<Byte>>, before: seq<seq<Byte>>, src: seq<seq<Byte>>,
                            p: nat, w: nat, h: nat, j: nat, i: nat)
    requires p < 7
  {
    && |now| == |before| == w * h
    && forall x: nat, y: nat | x < w && y < h ::
      Get(now, At(w, x, y))
      == if Done(p, j, i, x, y) then Get(src, At(PassW(p, w), Col(p, x), Row(p, y))) else Get(before, At(w, x, y))
  }

  lemma ScatterStep(now: seq<seq<Byte>>, before: seq<seq<Byte>>, src: seq<seq<Byte>>,
                    p: nat, w: nat, h: nat, j: nat, i: nat, px: seq<Byte>)
    requires p < 7 && i < PassW(p, w) && j < PassH(p, h)
    requires Scattered(now, before, src, p, w, h, j, i)
    requires px == Get(src, At(PassW(p, w), i, j))
    ensures 0 <= At(w, OutX(p, i), OutY(p, j)) < |now|
    ensures Scattered(now[At(w, OutX(p, i), OutY(p, j)) := px], before, src, p, w, h, j, i + 1)
  {
    hide PassOf, PassW, PassH, OutX, OutY, Col, Row, Done, At;
    PassIntoImage(p, w, h, i, j);
    var x', y' := OutX(p, i), OutY(p, j);
    AtInside(w, h, x', y');
    forall x: nat, y: nat | x < w && y < h
      ensures Get(now[At(w, x', y') := px], At(w, x, y))
        == if Done(p, j, i + 1, x, y) then Get(src, At(PassW(p, w), Col(p, x), Row(p, y)))
           else Get(before, At(w, x, y))
    {
      DoneStep(p, w, h, j, i, x, y);
      AtInside(w, h, x, y);
      if At(w, x, y) == At(w, x', y') {
        AtInjective(w, x, y, x', y');
      }
    }
  }

  lemma ScatterRow(now: seq<seq<Byte>>, before: seq<seq<Byte>>, src: seq<seq<Byte>>,
                   p: nat, w: nat, h: nat, j: nat)
    requires p < 7 && j < PassH(p, h)
    requires Scattered(now, before, src, p, w, h, j, PassW(p, w))
    ensures Scattered(now, before, src, p, w, h, j + 1, 0)
  {
    hide PassOf, PassW, PassH, OutX, OutY, Col, Row, Done, At;
    forall x: nat, y: nat | x < w && y < h
      ensures Done(p, j, PassW(p, w), x, y) <==> Done(p, j + 1, 0, x, y)
    {
      DoneRow(p, w, h, j, x, y);
    }
  }

  /** The copy loops for one pass. */
  method CopyPass(final: array<Byte>, out: array<Byte>, p: nat, w: nat, h: nat, ob: nat)
    requires p < 7 && final != out
    requires Offset(w * h, ob) == final.Length && Offset(PassW(p, w) * PassH(p, h), ob) <= out.Length
    modifies final
    ensures Scattered(PixelsOf(final[..], w * h, ob), old(PixelsOf(final[..], w * h, ob)),
                      PixelsOf(out[..], PassW(p, w) * PassH(p, h), ob), p, w, h, PassH(p, h), 0)
  {
    hide PassOf, PassW, PassH, OutX, OutY, Col, Row, At, Offset, PixelsOf, Scattered;
    var x, y := PassW(p, w), PassH(p, h);
    ghost var before := PixelsOf(final[..], w * h, ob);
    ghost var src := PixelsOf(out[..], x * y, ob);
    NothingScattered(before, src, p, w, h);
    var j := 0;
    while j < y
      invariant j <= y
      invariant PixelsOf(out[..], x * y, ob) == src
      invariant Scattered(PixelsOf(final[..], w * h, ob), before, src, p, w, h, j, 0)
    {
      var i := 0;
      while i < x
        invariant i <= x
        invariant PixelsOf(out[..], x * y, ob) == src
        invariant Scattered(PixelsOf(final[..], w * h, ob), before, src, p, w, h, j, i)
      {
        AtInside(x, y, i, j);
        ScatterStep(PixelsOf(final[..], w * h, ob), before, src, p, w, h, j, i, src[At(x, i, j)]);
        CopyPixel(final, At(w, OutX(p, i), OutY(p, j)), out, At(x, i, j), ob, w * h, x * y);
        i := i + 1;
      }
      ScatterRow(PixelsOf(final[..], w * h, ob), before, src, p, w, h, j);
      j := j + 1;
    }
  }

  lemma NothingScattered(before: seq<seq<Byte>>, src: seq<seq<Byte>>, p: nat, w: nat, h: nat)
    requires p < 7 && |before| == w * h
    ensures Scattered(before, before, src, p, w, h, 0, 0)
  {
    hide PassOf, PassW, PassH, OutX, OutY, Col, Row, At;
    forall x: nat, y: nat | x < w && y < h
      ensures !Done(p, 0, 0, x, y)
    {
      ImageFromPass(w, h, x, y);
    }
  }

  // -------------------------------------------------------------- the whole image

  /** Image size and pixel format. */
  datatype Header = Header(w: nat, h: nat, f: Format) {
    /** Bytes of a scanline of pass `p`. */
    function PassWidth(p: nat): nat
      requires p < 7
    {
      WidthBytes(f.img_n, PassW(p, w), f.depth)
    }

    ghost predicate Valid() {
      f.Valid() && w >= 1 && h >= 1
    }
  }

  /** `x && y` fails: the pass has no pixels and occupies no data. */
  predicate Empty(hd: Header, p: nat)
    requires p < 7
  {
    PassW(p, hd.w) == 0 || PassH(p, hd.h) == 0
  }

  /** Bytes of filtered data of a pass: `img_len`. */
  function PassLen(hd: Header, p: nat): nat
    requires p < 7
  {
    if Empty(hd, p) then 0 else ImageBytes(PassH(p, hd.h), hd.PassWidth(p))
  }

  /** Where the data of pass `p` begins: the lengths of the passes before it. */
  function PassStart(hd: Header, p: nat): nat
    requires p <= 7
  {
    if p == 0 then 0 else PassStart(hd, p - 1) + PassLen(hd, p - 1)
  }

  /** The scanlines of a pass that is in the data. */
  ghost function PassImage(hd: Header, data: seq<Byte>, p: nat): Pixels
    requires p < 7 && hd.Valid() && PassStart(hd, p) + PassLen(hd, p) <= |data|
  {
    if Empty(hd, p) then Pixels([])
    else
      ReconImage(data[PassStart(hd, p)..], 0, PassH(p, hd.h), Zeros(hd.PassWidth(p)), FilterBytes(hd.f.img_n, hd.f.depth))
  }

  /** The pass is all there and names no unknown filter. */
  ghost predicate PassOk(hd: Header, data: seq<Byte>, p: nat)
    requires p < 7 && hd.Valid()
  {
    PassStart(hd, p) + PassLen(hd, p) <= |data| && PassImage(hd, data, p).Pixels?
  }

  lemma RowsOfPixels(x: nat, y: nat, ob: nat)
    ensures Area(y, x * ob) == Offset(x * y, ob)
  {
    Regroup(x, y, ob);
  }

  lemma Regroup(a: int, b: int, c: int)
    ensures a * b * c == b * (a * c) == a * c * b == c * (a * b)
  {}

  lemma PassBytes(hd: Header, data: seq<Byte>, p: nat)
    requires p < 7 && hd.Valid() && PassOk(hd, data, p) && !Empty(hd, p)
    ensures |PassImage(hd, data, p).bytes| == Area(PassH(p, hd.h), hd.PassWidth(p))
    ensures Fits(hd.f, PassW(p, hd.w), hd.PassWidth(p))
  {
    hide PassW, PassH, ReconImage, ImageBytes, WidthBytes, FilterBytes, Area, PassStart, Fits;
    ScanlineBytes(hd.f.img_n, PassW(p, hd.w), hd.f.depth);
    WidthFits(hd.f, PassW(p, hd.w));
    ReconLength(data[PassStart(hd, p)..], 0, PassH(p, hd.h), Zeros(hd.PassWidth(p)), FilterBytes(hd.f.img_n, hd.f.depth));
  }

  /** The reduced image of a pass, expanded. */
  ghost function PassOutput(hd: Header, data: seq<Byte>, p: nat): seq<Byte>
    requires p < 7 && hd.Valid() && PassOk(hd, data, p)
  {
    if Empty(hd, p) then []
    else
      PassBytes(hd, data, p);
      ExpandImage(hd.f, PassImage(hd, data, p).bytes, hd.PassWidth(p), PassW(p, hd.w), PassH(p, hd.h))
  }

  /** The pixels of the reduced image of a pass. */
  ghost function PassSource(hd: Header, data: seq<Byte>, p: nat): seq<seq<Byte>>
    requires p < 7 && hd.Valid() && PassOk(hd, data, p)
  {
    PixelsOf(PassOutput(hd, data, p), PassW(p, hd.w) * PassH(p, hd.h), hd.f.OutBytes())
  }

  /** All pixels of passes below `p` are in place. */
  ghost predicate Placed(hd: Header, data: seq<Byte>, image: seq<seq<Byte>>, p: nat)
    requires p <= 7 && hd.Valid()
    requires forall q | 0 <= q < p :: PassOk(hd, data, q)
  {
    && |image| == hd.w * hd.h
    && forall x: nat, y: nat | x < hd.w && y < hd.h && 0 <= PassOf(x, y) < p ::
      var q := PassOf(x, y);
      Get(image, At(hd.w, x, y)) == Get(PassSource(hd, data, q), At(PassW(q, hd.w), Col(q, x), Row(q, y)))
  }

  lemma PlacedStep(hd: Header, data: seq<Byte>, before: seq<seq<Byte>>, after: seq<seq<Byte>>, p: nat)
    requires p < 7 && hd.Valid()
    requires forall q | 0 <= q < p + 1 :: PassOk(hd, data, q)
    requires Placed(hd, data, before, p)
    requires Scattered(after, before, PassSource(hd, data, p), p, hd.w, hd.h, PassH(p, hd.h), 0)
    ensures Placed(hd, data, after, p + 1)
  {
    hide PassOf, PassW, PassH, OutX, OutY, Col, Row, At, PassOk, PassSource;
    forall x: nat, y: nat | x < hd.w && y < hd.h && 0 <= PassOf(x, y) < p + 1
      ensures var q := PassOf(x, y);
        Get(after, At(hd.w, x, y)) == Get(PassSource(hd, data, q), At(PassW(q, hd.w), Col(q, x), Row(q, y)))
    {
      ImageFromPass(hd.w, hd.h, x, y);
    }
  }

  lemma EmptyStep(hd: Header, data: seq<Byte>, image: seq<seq<Byte>>, p: nat)
    requires p < 7 && hd.Valid() && Empty(hd, p)
    requires forall q | 0 <= q < p + 1 :: PassOk(hd, data, q)
    requires Placed(hd, data, image, p)
    ensures Placed(hd, data, image, p + 1)
  {
    hide PassOf, PassW, PassH, OutX, OutY, Col, Row, At, PassOk, PassSource;
    forall x: nat, y: nat | x < hd.w && y < hd.h
      ensures PassOf(x, y) != p
    {
      ImageFromPass(hd.w, hd.h, x, y);
    }
  }

  /** What one call of `stbi__create_png_image_raw` says about its pass. */
  ghost predicate PassCreated(hd: Header, data: seq<Byte>, p: nat, r: PngResult, out: seq<Byte>, bytes: seq<Byte>)
    requires p < 7 && hd.Valid() && PassStart(hd, p) <= |data| && PassW(p, hd.w) >= 1
  {
    && !Empty(hd, p)
    && |out| == Area(PassH(p, hd.h), hd.f.Bytes(PassW(p, hd.w)))
    && Created(data[PassStart(hd, p)..], hd.f, PassW(p, hd.w), PassH(p, hd.h), r, out, bytes)
  }

  lemma PassAccepted(hd: Header, data: seq<Byte>, p: nat, r: PngResult, out: seq<Byte>, bytes: seq<Byte>)
    requires p < 7 && hd.Valid() && PassStart(hd, p) <= |data| && PassW(p, hd.w) >= 1
    requires PassCreated(hd, data, p, r, out, bytes)
    ensures r == Ok <==> PassOk(hd, data, p)
    ensures r == Ok ==> PassStart(hd, p + 1) <= |data| && PassImage(hd, data, p) == Pixels(bytes)
    ensures r == Ok ==> |bytes| == Area(PassH(p, hd.h), hd.PassWidth(p)) && Fits(hd.f, PassW(p, hd.w), hd.PassWidth(p))
    ensures r == Ok ==> out == ExpandImage(hd.f, bytes, hd.PassWidth(p), PassW(p, hd.w), PassH(p, hd.h))
  {
    hide PassW, PassH, WidthBytes, ImageBytes, FilterBytes, Area, ReconImage, Zeros, ExpandImage, Fits,
      Format.Bytes, Format.Valid;
    WidthFits(hd.f, PassW(p, hd.w));
  }

  lemma PassResult(hd: Header, data: seq<Byte>, p: nat, r: PngResult, out: seq<Byte>, bytes: seq<Byte>)
    requires p < 7 && hd.Valid() && PassStart(hd, p) <= |data| && PassW(p, hd.w) >= 1
    requires PassCreated(hd, data, p, r, out, bytes)
    ensures r == Ok <==> PassOk(hd, data, p)
    ensures r == Ok ==> PassStart(hd, p + 1) <= |data|
    ensures r == Ok ==> PassOutput(hd, data, p) == out
  {
    hide PassW, PassH, WidthBytes, ImageBytes, Area, ExpandImage, Fits, Format.Valid, PassOk, PassImage,
      PassStart, Header.PassWidth;
    PassAccepted(hd, data, p, r, out, bytes);
    NotEmpty(hd, data, p, r, out, bytes);
  }

  lemma NotEmpty(hd: Header, data: seq<Byte>, p: nat, r: PngResult, out: seq<Byte>, bytes: seq<Byte>)
    requires p < 7 && hd.Valid() && PassStart(hd, p) <= |data| && PassW(p, hd.w) >= 1
    requires PassCreated(hd, data, p, r, out, bytes)
    ensures !Empty(hd, p)
    ensures |out| == Offset(PassW(p, hd.w) * PassH(p, hd.h), hd.f.OutBytes())
  {
    hide PassW, PassH, Offset, Area, Created, Format.OutBytes, Format.Bytes, Format.Valid;
    InsOuts(hd.f, PassW(p, hd.w));
    RowsOfPixels(PassW(p, hd.w), PassH(p, hd.h), hd.f.OutBytes());
  }

  lemma EmptyResult(hd: Header, data: seq<Byte>, p: nat)
    requires p < 7 && hd.Valid() && Empty(hd, p) && PassStart(hd, p) <= |data|
    ensures PassOk(hd, data, p) && PassStart(hd, p + 1) == PassStart(hd, p)
  {}

  lemma NonePlaced(hd: Header, data: seq<Byte>, image: seq<seq<Byte>>)
    requires hd.Valid() && |image| == hd.w * hd.h
    ensures Placed(hd, data, image, 0)
  {}

  /**
   The de-interlacing branch of `stbi__create_png_image`: it succeeds exactly when every
   pass does, and then each pixel of the image is the pixel of its own pass.
   */
  method CreateImage(hd: Header, data: seq<Byte>) returns (ok: bool, final: array<Byte>)
    requires hd.Valid()
    ensures final.Length == Offset(hd.w * hd.h, hd.f.OutBytes())
    ensures ok <==> forall p | 0 <= p < 7 :: PassOk(hd, data, p)
    ensures ok ==> Placed(hd, data, PixelsOf(final[..], hd.w * hd.h, hd.f.OutBytes()), 7)
  {
    hide PassOf, PassW, PassH, At, Offset, PixelsOf, Scattered, PassOk, Placed, WidthBytes,
      ImageBytes, FilterBytes, Area, ReconImage, Zeros, Created, PassOutput, Format.Valid, Format.OutBytes, Format.Bytes;
    var w, h, ob := hd.w, hd.h, hd.f.OutBytes();
    final := new Byte[Offset(w * h, ob)];
    NonePlaced(hd, data, PixelsOf(final[..], w * h, ob));
    var p, at := 0, 0;
    while p < 7
      invariant 0 <= p <= 7 && at == PassStart(hd, p) <= |data|
      invariant forall q | 0 <= q < p :: PassOk(hd, data, q)
      invariant Placed(hd, data, PixelsOf(final[..], w * h, ob), p)
    {
      var x, y := PassW(p, w), PassH(p, h);
      if x != 0 && y != 0 {
        ghost var bytes;
        var r, out;
        r, out, bytes := CreateImageRaw(data[at..], hd.f, x, y);
        PassResult(hd, data, p, r, out[..], bytes);
        NotEmpty(hd, data, p, r, out[..], bytes);
        if r != Ok {
          return false, final;
        }
        ghost var before := PixelsOf(final[..], w * h, ob);
        CopyPass(final, out, p, w, h, ob);
        PlacedStep(hd, data, before, PixelsOf(final[..], w * h, ob), p);
        at := at + ImageBytes(y, WidthBytes(hd.f.img_n, x, hd.f.depth));
      } else {
        EmptyResult(hd, data, p);
        EmptyStep(hd, data, PixelsOf(final[..], w * h, ob), p);
      }
      p := p + 1;
    }
    ok := true;
  }
}
