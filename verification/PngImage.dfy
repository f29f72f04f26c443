/**
 `stbi__create_png_image_raw` at every sample depth: unfiltering with two line buffers that
 alternate between current and prior scanline, a substituted filter for the first scanline,
 which has no prior one, and the expansion of each scanline into the output.
 */
module PngImage {
  import opened Bits
  import opened PngFilter
  import opened PngExpand

  datatype PngResult = Ok | NotEnoughPixels | BadFilter

  const F_NONE: nat := 0
  const F_SUB: nat := 1
  const F_UP: nat := 2
  const F_AVG: nat := 3
  const F_PAETH: nat := 4
  const F_AVG_FIRST: nat := 5

  /** `first_row_filter`. */
  function FirstRowFilter(f: nat): nat
    requires f <= 4
  {
    [F_NONE, F_SUB, F_NONE, F_AVG_FIRST, F_SUB][f]
  }

  /** `row` is the scanline that `raw` stands for after `prior`. */
  ghost predicate IsRecon(row: seq<Byte>, f: nat, raw: seq<Byte>, prior: seq<Byte>, bpp: nat) {
    && f <= 4 && bpp >= 1 && |row| == |raw| == |prior|
    && forall k :: 0 <= k < |raw| ==>
      row[k] == (raw[k] as int + Predict(f, Left(row, k, bpp), prior[k], Left(prior, k, bpp)) as int) % 256
  }

  lemma ReconRowIs(f: nat, raw: seq<Byte>, prior: seq<Byte>, bpp: nat)
    requires f <= 4 && |prior| == |raw| && bpp >= 1
    ensures IsRecon(ReconRow(f, raw, prior, bpp, |raw|), f, raw, prior, bpp)
  {
    hide ReconRow, Predict;
    forall k | 0 <= k < |raw|
      ensures var row := ReconRow(f, raw, prior, bpp, |raw|);
        row[k] == (raw[k] as int + Predict(f, Left(row, k, bpp), prior[k], Left(prior, k, bpp)) as int) % 256
    {
      ReconAt(f, raw, prior, bpp, k);
    }
  }

  /** The buffer holds `row` at `at` and is otherwise as it was. */
  twostate predicate Written(buf: array<Byte>, at: nat, row: seq<Byte>)
    reads buf
  {
    && at + |row| <= buf.Length
    && buf[at..at + |row|] == row
    && (forall i :: 0 <= i < buf.Length && !(at <= i < at + |row|) ==> buf[i] == old(buf[i]))
  }

  /** `STBI__F_none`, and for a first row also `STBI__F_up`. */
  method RowNone(buf: array<Byte>, cur: nat, raw: seq<Byte>, ghost row: seq<Byte>, ghost f: nat,
                 ghost prior: seq<Byte>, fb: nat)
    requires cur + |raw| <= buf.Length && IsRecon(row, f, raw, prior, fb)
    requires f == F_NONE || (f == F_UP && prior == Zeros(|raw|))
    modifies buf
    ensures Written(buf, cur, row)
  {
    forall i | 0 <= i < |raw| {
      buf[cur + i] := raw[i];
    }
    assert forall k :: 0 <= k < |raw| ==> row[k] == raw[k];
  }

  /** `STBI__F_sub`, and for a first row also `STBI__F_paeth`. */
  method RowSub(buf: array<Byte>, cur: nat, raw: seq<Byte>, ghost row: seq<Byte>, ghost f: nat,
                ghost prior: seq<Byte>, fb: nat)
    requires cur + |raw| <= buf.Length && fb <= |raw| && IsRecon(row, f, raw, prior, fb)
    requires f == F_SUB || (f == F_PAETH && prior == Zeros(|raw|))
    modifies buf
    ensures Written(buf, cur, row)
  {
    forall i | 0 <= i < fb {
      buf[cur + i] := raw[i];
    }
    var k := fb;
    while k < |raw|
      invariant fb <= k <= |raw|
      invariant forall i :: 0 <= i < k ==> buf[cur + i] == row[i]
      invariant forall i :: 0 <= i < buf.Length && !(cur <= i < cur + |raw|) ==> buf[i] == old(buf[i])
    {
      buf[cur + k] := (raw[k] as int + buf[cur + k - fb] as int) % 256;
      k := k + 1;
    }
  }

  /** `STBI__F_up`. */
  method RowUp(buf: array<Byte>, cur: nat, prv: nat, raw: seq<Byte>, ghost row: seq<Byte>,
               ghost prior: seq<Byte>, fb: nat)
    requires cur + |raw| <= buf.Length && prv + |raw| <= buf.Length
    requires cur + |raw| <= prv || prv + |raw| <= cur
    requires IsRecon(row, F_UP, raw, prior, fb) && buf[prv..prv + |raw|] == prior
    modifies buf
    ensures Written(buf, cur, row)
  {
    var k := 0;
    while k < |raw|
      invariant 0 <= k <= |raw|
      invariant forall i :: 0 <= i < k ==> buf[cur + i] == row[i]
      invariant forall i :: 0 <= i < buf.Length && !(cur <= i < cur + |raw|) ==> buf[i] == old(buf[i])
    {
      assert old(buf[prv + k]) == old(buf[prv..prv + |raw|])[k];
      buf[cur + k] := (raw[k] as int + buf[prv + k] as int) % 256;
      k := k + 1;
    }
  }

  lemma AvgHead(row: seq<Byte>, raw: seq<Byte>, prior: seq<Byte>, fb: nat, k: nat)
    requires IsRecon(row, F_AVG, raw, prior, fb) && k < fb && k < |raw|
    ensures |row| == |raw| == |prior| && row[k] == (raw[k] as int + prior[k] as int / 2) % 256
  {}

  lemma AvgTail(row: seq<Byte>, raw: seq<Byte>, prior: seq<Byte>, fb: nat, k: nat)
    requires IsRecon(row, F_AVG, raw, prior, fb) && fb <= k < |raw|
    ensures |row| == |raw| == |prior|
    ensures row[k] == (raw[k] as int + (prior[k] as int + row[k - fb] as int) / 2) % 256
  {}

  /** `STBI__F_avg`. */
  method RowAvg(buf: array<Byte>, cur: nat, prv: nat, raw: seq<Byte>, ghost row: seq<Byte>,
                ghost prior: seq<Byte>, fb: nat)
    requires cur + |raw| <= buf.Length && prv + |raw| <= buf.Length && fb <= |raw|
    requires cur + |raw| <= prv || prv + |raw| <= cur
    requires |prior| == |raw| == |row| && fb >= 1
    requires IsRecon(row, F_AVG, raw, prior, fb) && buf[prv..prv + |raw|] == prior
    modifies buf
    ensures Written(buf, cur, row)
  {
    hide IsRecon;
    var k := 0;
    while k < fb
      invariant 0 <= k <= fb
      invariant forall i :: 0 <= i < k ==> buf[cur + i] == row[i]
      invariant forall i :: 0 <= i < buf.Length && !(cur <= i < cur + |raw|) ==> buf[i] == old(buf[i])
    {
      AvgHead(row, raw, prior, fb, k);
      assert old(buf[prv + k]) == old(buf[prv..prv + |raw|])[k];
      buf[cur + k] := (raw[k] as int + buf[prv + k] as int / 2) % 256;
      k := k + 1;
    }
    while k < |raw|
      invariant fb <= k <= |raw|
      invariant forall i :: 0 <= i < k ==> buf[cur + i] == row[i]
      invariant forall i :: 0 <= i < buf.Length && !(cur <= i < cur + |raw|) ==> buf[i] == old(buf[i])
    {
      AvgTail(row, raw, prior, fb, k);
      assert old(buf[prv + k]) == old(buf[prv..prv + |raw|])[k];
      var l := k - fb;
      assert buf[cur + l] == row[l];
      buf[cur + k] := (raw[k] as int + (buf[prv + k] as int + buf[cur + l] as int) / 2) % 256;
      k := k + 1;
    }
  }

  lemma PaethHead(row: seq<Byte>, raw: seq<Byte>, prior: seq<Byte>, fb: nat, k: nat)
    requires IsRecon(row, F_PAETH, raw, prior, fb) && k < fb && k < |raw|
    ensures |row| == |raw| == |prior| && row[k] == (raw[k] as int + prior[k] as int) % 256
  {}

  lemma PaethTail(row: seq<Byte>, raw: seq<Byte>, prior: seq<Byte>, fb: nat, k: nat)
    requires IsRecon(row, F_PAETH, raw, prior, fb) && fb <= k < |raw|
    ensures |row| == |raw| == |prior|
    ensures row[k] == (raw[k] as int + Paeth(row[k - fb], prior[k], prior[k - fb])) % 256
  {
    hide Paeth, PaethPredictor;
    PaethCorrect(row[k - fb], prior[k], prior[k - fb]);
  }

  /** `STBI__F_paeth`. */
  method RowPaeth(buf: array<Byte>, cur: nat, prv: nat, raw: seq<Byte>, ghost row: seq<Byte>,
                  ghost prior: seq<Byte>, fb: nat)
    requires cur + |raw| <= buf.Length && prv + |raw| <= buf.Length && fb <= |raw|
    requires cur + |raw| <= prv || prv + |raw| <= cur
    requires |prior| == |raw| == |row| && fb >= 1
    requires IsRecon(row, F_PAETH, raw, prior, fb) && buf[prv..prv + |raw|] == prior
    modifies buf
    ensures Written(buf, cur, row)
  {
    hide Paeth, IsRecon;
    var k := 0;
    while k < fb
      invariant 0 <= k <= fb
      invariant forall i :: 0 <= i < k ==> buf[cur + i] == row[i]
      invariant forall i :: 0 <= i < buf.Length && !(cur <= i < cur + |raw|) ==> buf[i] == old(buf[i])
    {
      PaethHead(row, raw, prior, fb, k);
      assert old(buf[prv + k]) == old(buf[prv..prv + |raw|])[k];
      buf[cur + k] := (raw[k] as int + buf[prv + k] as int) % 256;
      k := k + 1;
    }
    while k < |raw|
      invariant fb <= k <= |raw|
      invariant forall i :: 0 <= i < k ==> buf[cur + i] == row[i]
      invariant forall i :: 0 <= i < buf.Length && !(cur <= i < cur + |raw|) ==> buf[i] == old(buf[i])
    {
      PaethTail(row, raw, prior, fb, k);
      var l := k - fb;
      var a, b, c := buf[cur + l], buf[prv + k], buf[prv + l];
      assert old(buf[prv + k]) == old(buf[prv..prv + |raw|])[k];
      assert old(buf[prv + l]) == old(buf[prv..prv + |raw|])[l];
      assert a == row[l] && b == prior[k] && c == prior[l];
      assert row[k] == (raw[k] as int + Paeth(a, b, c)) % 256;
      buf[cur + k] := (raw[k] as int + Paeth(a, b, c)) % 256;
      k := k + 1;
    }
  }

  /** `STBI__F_avg_first`. */
  method RowAvgFirst(buf: array<Byte>, cur: nat, raw: seq<Byte>, ghost row: seq<Byte>,
                     ghost prior: seq<Byte>, fb: nat)
    requires cur + |raw| <= buf.Length && fb <= |raw|
    requires IsRecon(row, F_AVG, raw, prior, fb) && prior == Zeros(|raw|)
    modifies buf
    ensures Written(buf, cur, row)
  {
    forall i | 0 <= i < fb {
      buf[cur + i] := raw[i];
    }
    var k := fb;
    while k < |raw|
      invariant fb <= k <= |raw|
      invariant forall i :: 0 <= i < k ==> buf[cur + i] == row[i]
      invariant forall i :: 0 <= i < buf.Length && !(cur <= i < cur + |raw|) ==> buf[i] == old(buf[i])
    {
      buf[cur + k] := (raw[k] as int + buf[cur + k - fb] as int / 2) % 256;
      k := k + 1;
    }
  }

  /** The switch on the filter type, with the substitution for the first scanline. */
  method UnfilterRow(buf: array<Byte>, cur: nat, prv: nat, raw: seq<Byte>, f: nat, fb: nat, first: bool,
                     ghost prior: seq<Byte>)
    requires f <= 4 && 1 <= fb <= |raw| && |prior| == |raw|
    requires cur + |raw| <= buf.Length && prv + |raw| <= buf.Length
    requires cur + |raw| <= prv || prv + |raw| <= cur
    requires if first then prior == Zeros(|raw|) else buf[prv..prv + |raw|] == prior
    modifies buf
    ensures Written(buf, cur, ReconRow(f, raw, prior, fb, |raw|))
  {
    hide ReconRow, IsRecon;
    ghost var row := ReconRow(f, raw, prior, fb, |raw|);
    ReconRowIs(f, raw, prior, fb);
    var filter := if first then FirstRowFilter(f) else f;
    if filter == F_NONE {
      RowNone(buf, cur, raw, row, f, prior, fb);
    } else if filter == F_SUB {
      RowSub(buf, cur, raw, row, f, prior, fb);
    } else if filter == F_UP {
      RowUp(buf, cur, prv, raw, row, prior, fb);
    } else if filter == F_AVG {
      RowAvg(buf, cur, prv, raw, row, prior, fb);
    } else if filter == F_PAETH {
      RowPaeth(buf, cur, prv, raw, row, prior, fb);
    } else {
      RowAvgFirst(buf, cur, raw, row, prior, fb);
    }
  }

  // ---------------------------------------------------------------- the whole image

  /** `img_width_bytes`: bytes of a scanline of `x` pixels. */
  function WidthBytes(img_n: nat, x: nat, depth: nat): nat {
    (img_n * x * depth + 7) / 8
  }

  /** `filter_bytes`: the distance to the byte a filter calls its left neighbour. */
  function FilterBytes(img_n: nat, depth: nat): nat {
    if depth < 8 then 1 else img_n * (if depth == 16 then 2 else 1)
  }

  /** `nk`: the bytes one scanline's filter loop covers are the bytes it occupies in the data. */
  lemma ScanlineBytes(img_n: nat, x: nat, depth: nat)
    requires Depth(depth) && img_n >= 1 && x >= 1
    ensures 1 <= FilterBytes(img_n, depth) <= WidthBytes(img_n, x, depth)
    ensures WidthBytes(img_n, x, depth)
      == (if depth < 8 then WidthBytes(img_n, x, depth) else x) * FilterBytes(img_n, depth)
  {
    var m := img_n * x;
    Products(img_n, x);
    if depth == 8 {
      DivMod(m * 8 + 7, 8, m, 7);
    } else if depth == 16 {
      DivMod(m * 16 + 7, 8, 2 * m, 7);
    }
  }

  lemma Products(a: nat, b: nat)
    requires a >= 1 && b >= 1
    ensures a * b >= a && b * a == a * b && b * (a * 2) == 2 * (a * b)
  {}

  /** A scanline is the fewest bytes that hold its samples. */
  lemma FewestBytes(img_n: nat, x: nat, depth: nat)
    ensures 8 * WidthBytes(img_n, x, depth) - 8 < img_n * x * depth <= 8 * WidthBytes(img_n, x, depth)
  {}

  /** Offset of the line buffer that scanline `j` is reconstructed into. */
  function Slot(j: nat, n: nat): nat {
    (j % 2) * n
  }

  lemma Alternate(j: nat, n: nat)
    ensures Slot(j, n) + n <= 2 * n
    ensures Slot(j, n) + n <= Slot(j + 1, n) || Slot(j + 1, n) + n <= Slot(j, n)
    ensures Slot(j + 2, n) == Slot(j, n)
  {
    if j % 2 == 0 {
      assert (j + 1) % 2 == 1;
    } else {
      assert (j + 1) % 2 == 0;
    }
  }

  lemma PrependStep(done: seq<Byte>, row: seq<Byte>, p: Pixels)
    ensures Prepend(done, Prepend(row, p)) == Prepend(done + row, p)
  {}

  /** `done` is reconstructed and `left` scanlines of the image `goal` are still to come. */
  ghost predicate Going(goal: Pixels, done: seq<Byte>, data: seq<Byte>, at: int, left: int, prior: seq<Byte>, fb: nat)
    requires fb >= 1
  {
    && 0 <= at && 0 <= left && at + ImageBytes(left, |prior|) <= |data|
    && goal == Prepend(done, ReconImage(data, at, left, prior, fb))
  }

  /** One scanline off the front of what is left to reconstruct. */
  lemma NextRow(goal: Pixels, done: seq<Byte>, data: seq<Byte>, at: nat, left: nat, prior: seq<Byte>, fb: nat)
    requires left > 0 && fb >= 1 && Going(goal, done, data, at, left, prior, fb)
    ensures at + 1 + |prior| <= |data|
    ensures data[at] > 4 ==> goal == InvalidFilter
    ensures data[at] <= 4 ==>
      var row := ReconRow(data[at], data[at + 1..at + 1 + |prior|], prior, fb, |prior|);
      Going(goal, done + row, data, at + 1 + |prior|, left - 1, row, fb)
  {
    hide ReconRow;
    RowsFit(left, |prior|);
    if data[at] <= 4 {
      var row := ReconRow(data[at], data[at + 1..at + 1 + |prior|], prior, fb, |prior|);
      ReconImageStep(data, at, left, prior, fb, data[at], data[at + 1..at + 1 + |prior|]);
      PrependStep(done, row, ReconImage(data, at + 1 + |prior|, left - 1, row, fb));
    }
  }

  lemma AllDone(goal: Pixels, done: seq<Byte>, data: seq<Byte>, at: nat, prior: seq<Byte>, fb: nat)
    requires fb >= 1 && Going(goal, done, data, at, 0, prior, fb)
    ensures goal == Pixels(done)
  {
    assert done + [] == done;
  }

  lemma NothingDone(data: seq<Byte>, y: nat, prior: seq<Byte>, fb: nat)
    requires fb >= 1 && ImageBytes(y, |prior|) <= |data|
    ensures Going(ReconImage(data, 0, y, prior, fb), [], data, 0, y, prior, fb)
  {
    var p := ReconImage(data, 0, y, prior, fb);
    if p.Pixels? {
      assert [] + p.bytes == p.bytes;
    }
  }

  function Area(y: nat, n: nat): nat {
    y * n
  }

  lemma NoArea(n: nat)
    ensures Area(0, n) == 0
  {}

  lemma LeftOver(j: nat, y: nat, n: nat)
    requires j < y
    ensures Area(y - j, n) == n + Area(y - (j + 1), n)
    ensures ImageBytes(y - j, n) == n + 1 + ImageBytes(y - (j + 1), n)
  {
    RowsFit(y - j, n);
  }

  /** A scanline of `n` bytes holds the samples of `x` pixels. */
  predicate Fits(f: Format, x: nat, n: nat) {
    f.Ins(x) * f.depth <= 8 * n
  }

  lemma WidthFits(f: Format, x: nat)
    ensures Fits(f, x, WidthBytes(f.img_n, x, f.depth))
  {
    assert f.Ins(x) == f.img_n * x;
  }

  /** The pixels of `j` scanlines of `n` bytes. */
  function ExpandImage(f: Format, bytes: seq<Byte>, n: nat, x: nat, j: nat): (r: seq<Byte>)
    requires f.Valid() && Fits(f, x, n) && |bytes| == Area(j, n)
    ensures |r| == Area(j, f.Bytes(x))
    decreases j
  {
    if j == 0 then [] else
      LeftOver(0, j, n);
      LeftOver(0, j, f.Bytes(x));
      var m := Area(j - 1, n);
      ExpandImage(f, bytes[..m], n, x, j - 1) + ExpandRow(f, bytes[m..], x)
  }

  lemma NoImage(f: Format, n: nat, x: nat)
    requires f.Valid() && Fits(f, x, n)
    ensures Area(0, n) == 0 && ExpandImage(f, [], n, x, 0) == []
  {}

  lemma ExpandNext(f: Format, bytes: seq<Byte>, row: seq<Byte>, x: nat, j: nat)
    requires f.Valid() && Fits(f, x, |row|) && |bytes| == Area(j, |row|)
    ensures |bytes + row| == Area(j + 1, |row|)
    ensures ExpandImage(f, bytes + row, |row|, x, j + 1) == ExpandImage(f, bytes, |row|, x, j) + ExpandRow(f, row, x)
  {
    hide Area, ExpandRow;
    LeftOver(0, j + 1, |row|);
    assert (bytes + row)[..|bytes|] == bytes && (bytes + row)[|bytes|..] == row;
  }

  /** One round of the loop: unfilter into the current line buffer, expand into the output. */
  method Scanline(buf: array<Byte>, cur: nat, prv: nat, raw: seq<Byte>, t: nat, fb: nat, first: bool,
                  out: array<Byte>, dst: nat, f: Format, x: nat, ghost prior: seq<Byte>) returns (ghost row: seq<Byte>)
    requires t <= 4 && 1 <= fb <= |raw| && |prior| == |raw|
    requires cur + |raw| <= buf.Length && prv + |raw| <= buf.Length
    requires cur + |raw| <= prv || prv + |raw| <= cur
    requires if first then prior == Zeros(|raw|) else buf[prv..prv + |raw|] == prior
    requires f.Valid() && Fits(f, x, |raw|)
    requires out != buf && dst + f.Bytes(x) <= out.Length
    modifies buf, out
    ensures row == ReconRow(t, raw, prior, fb, |raw|)
    ensures buf[cur..cur + |raw|] == row && out[..dst + f.Bytes(x)] == old(out[..dst]) + ExpandRow(f, row, x)
  {
    hide ReconRow, ExpandRow;
    row := ReconRow(t, raw, prior, fb, |raw|);
    UnfilterRow(buf, cur, prv, raw, t, fb, first, prior);
    ExpandLine(out, dst, buf, cur, f, x, row);
  }

  /** A reconstructed image has its scanlines' bytes. */
  lemma {:induction false} ReconLength(data: seq<Byte>, at: nat, y: nat, prior: seq<Byte>, fb: nat)
    requires fb >= 1 && at + ImageBytes(y, |prior|) <= |data|
    ensures var p := ReconImage(data, at, y, prior, fb); p.Pixels? ==> |p.bytes| == Area(y, |prior|)
    decreases y
  {
    hide ReconRow, ImageBytes;
    if y > 0 {
      RowsFit(y, |prior|);
      if data[at] <= 4 {
        var raw := data[at + 1..at + 1 + |prior|];
        ReconLength(data, at + 1 + |prior|, y - 1, ReconRow(data[at], raw, prior, fb, |raw|), fb);
        LeftOver(0, y, |prior|);
      }
    }
  }

  /** The buffer of the scanline before `j` holds it. */
  ghost predicate PriorIn(buf: array<Byte>, j: nat, n: nat, prior: seq<Byte>)
    reads buf
  {
    && |prior| == n
    && Slot(j + 1, n) + n <= buf.Length
    && if j == 0 then prior == Zeros(n) else buf[Slot(j + 1, n)..Slot(j + 1, n) + n] == prior
  }

  /** The loop over scanlines, on two line buffers. */
  method Scanlines(raw: seq<Byte>, y: nat, n: nat, fb: nat, f: Format, x: nat, filterBuf: array<Byte>, out: array<Byte>)
    returns (r: PngResult, ghost bytes: seq<Byte>)
    requires 1 <= fb <= n && ImageBytes(y, n) <= |raw| && f.Valid() && Fits(f, x, n)
    requires filterBuf.Length == 2 * n && out.Length == Area(y, f.Bytes(x)) && out != filterBuf
    modifies filterBuf, out
    ensures r != NotEnoughPixels
    ensures ReconImage(raw, 0, y, Zeros(n), fb) == if r == Ok then Pixels(bytes) else InvalidFilter
    ensures r == Ok ==> |bytes| == Area(y, n) && out[..] == ExpandImage(f, bytes, n, x, y)
  {
    hide ReconImage, ReconRow, ImageBytes, Area, Slot, Zeros, Going, ExpandRow, ExpandImage, Fits,
      Format.Bytes, Format.Valid;
    ghost var prior := Zeros(n);
    ghost var goal := ReconImage(raw, 0, y, prior, fb);
    var j, at, dst := 0, 0, 0;
    bytes := [];
    NothingDone(raw, y, prior, fb);
    NoImage(f, n, x);
    Alternate(1, n);
    assert out[..dst] == [];
    while j < y
      invariant 0 <= j <= y && 0 <= at && 0 <= dst && dst + Area(y - j, f.Bytes(x)) == out.Length
      invariant PriorIn(filterBuf, j, n, prior) && |bytes| == Area(j, n)
      invariant Going(goal, bytes, raw, at, y - j, prior, fb)
      invariant out[..dst] == ExpandImage(f, bytes, n, x, j)
    {
      Alternate(j, n);
      LeftOver(j, y, f.Bytes(x));
      NextRow(goal, bytes, raw, at, y - j, prior, fb);
      var filter := raw[at];
      if filter > 4 {
        return BadFilter, bytes;
      }
      prior := Scanline(filterBuf, Slot(j, n), Slot(j + 1, n), raw[at + 1..at + 1 + n], filter, fb, j == 0,
                        out, dst, f, x, prior);
      ExpandNext(f, bytes, prior, x, j);
      bytes := bytes + prior;
      j, at, dst := j + 1, at + 1 + n, dst + f.Bytes(x);
    }
    AllDone(goal, bytes, raw, at, prior, fb);
    NoArea(f.Bytes(x));
    assert out[..dst] == out[..];
    r := Ok;
  }

  /**
   `stbi__create_png_image_raw`: on success the output is the pixels of the scanlines that
   the filtered data stands for; it fails exactly when the data is too short or names an
   unknown filter.
   */
  method CreateImageRaw(raw: seq<Byte>, f: Format, x: nat, y: nat)
    returns (r: PngResult, out: array<Byte>, ghost bytes: seq<Byte>)
    requires f.Valid() && x >= 1
    ensures fresh(out) && out.Length == Area(y, f.Bytes(x))
    ensures Created(raw, f, x, y, r, out[..], bytes)
  {
    hide ReconImage, ImageBytes, WidthBytes, FilterBytes, Depth, Zeros, Area, Fits, ExpandImage;
    var n, fb := WidthBytes(f.img_n, x, f.depth), FilterBytes(f.img_n, f.depth);
    ScanlineBytes(f.img_n, x, f.depth);
    WidthFits(f, x);
    out := new Byte[Area(y, f.Bytes(x))];
    bytes := [];
    if |raw| < ImageBytes(y, n) {
      return NotEnoughPixels, out, bytes;
    }
    var filterBuf := new Byte[2 * n];
    r, bytes := Scanlines(raw, y, n, fb, f, x, filterBuf, out);
  }

  /** What the answer and the output say about the data. */
  ghost predicate Created(
      raw: seq<Byte>, f: Format, x: nat, y: nat, r: PngResult, out: seq<Byte>, bytes: seq<Byte>)
    requires f.Valid() && x >= 1
  {
    ScanlineBytes(f.img_n, x, f.depth);
    WidthFits(f, x);
    var n, fb := WidthBytes(f.img_n, x, f.depth), FilterBytes(f.img_n, f.depth);
    && (r == NotEnoughPixels <==> |raw| < ImageBytes(y, n))
    && (r != NotEnoughPixels ==>
      ReconImage(raw, 0, y, Zeros(n), fb) == if r == Ok then Pixels(bytes) else InvalidFilter)
    && (r == Ok ==> |bytes| == Area(y, n) && out == ExpandImage(f, bytes, n, x, y))
  }
}
