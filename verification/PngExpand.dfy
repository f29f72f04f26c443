/**
 From a reconstructed scanline to pixels in `stbi__create_png_image_raw`: unpacking of
 samples narrower than a byte, their scaling, the byte order of wide ones, and an opaque
 alpha channel that is inserted, in place where need be.
 */
module PngExpand {
  import opened Bits

  /** The sample depths of section 4.1.1 of RFC 2083. */
  ghost predicate Depth(depth: nat) {
    depth in {1, 2, 4, 8, 16}
  }

  /**
   Channels of the data and of the output, sample depth, whether the samples are grey
   levels, and whether the platform stores the low byte of a word first.
   */
  datatype Format = Format(img_n: nat, out_n: nat, depth: nat, grey: bool, little: bool) {
    /** What the source asserts. */
    ghost predicate Valid() {
      && Depth(depth) && 1 <= img_n <= 4
      && (out_n == img_n || (out_n == img_n + 1 && (img_n == 1 || img_n == 3)))
    }

    /** `output_bytes`: bytes of an output pixel. */
    function OutBytes(): nat {
      out_n * (if depth == 16 then 2 else 1)
    }

    /** Samples of a scanline of `x` pixels in the data. */
    function Ins(x: nat): nat {
      x * img_n
    }

    /** Samples that are put out for it, and their bytes. */
    function Outs(x: nat): nat {
      x * out_n
    }

    function Bytes(x: nat): nat {
      if depth == 16 then 2 * Outs(x) else Outs(x)
    }

    /** `stbi__depth_scale_table`, used for grey levels. */
    function Scale(): (r: nat)
      ensures depth in {1, 2, 4} ==> 1 <= r && r * (Pow2(depth) - 1) <= 255
    {
      Pow2Small();
      if !grey then 1
      else if depth == 1 then 0xFF
      else if depth == 2 then 0x55
      else if depth == 4 then 0x11
      else 1
    }

    /** The largest sample. */
    function Opaque(): nat {
      if depth == 16 then 0xFFFF else 0xFF
    }
  }

  lemma Pow2Small()
    ensures Pow2(1) == 2 && Pow2(2) == 4 && Pow2(4) == 16 && Pow2(8) == 256
  {
    ShlNibble(0);
    ShlByte(0);
  }

  /** Scaling takes the largest grey level to 255, and each level `v` of `m` to 255 v / m. */
  lemma ScaleIs(f: Format, v: nat)
    requires f.depth in {1, 2, 4} && f.grey && v < Pow2(f.depth)
    ensures f.Scale() * v * (Pow2(f.depth) - 1) == 255 * v
  {
    Pow2Small();
  }

  // ------------------------------------------------------------------- what is meant

  /** The byte that sample `k` of `depth` bits lies in, and the bits before it there. */
  function Index(depth: nat, k: nat): nat {
    if depth == 4 then k / 2 else if depth == 2 then k / 4 else k / 8
  }

  function Position(depth: nat, k: nat): (p: nat)
    ensures depth in {1, 2, 4} ==> p + depth <= 8
  {
    if depth == 4 then 4 * (k % 2) else if depth == 2 then 2 * (k % 4) else k % 8
  }

  /** Sample `k` of a scanline of `depth`-bit samples: the leftmost is in the high bits of its byte (section 2.3). */
  function Packed(row: seq<Byte>, depth: nat, k: nat): (v: nat)
    requires depth in {1, 2, 4} && Index(depth, k) < |row|
    ensures v < Pow2(depth)
  {
    Low(Shr(row[Index(depth, k)], 8 - depth - Position(depth, k)), depth)
  }

  /** The scanline holds `n` samples. */
  predicate Has(row: seq<Byte>, depth: nat, n: nat) {
    n * depth <= 8 * |row|
  }

  lemma HasFewer(row: seq<Byte>, depth: nat, n: nat, k: nat)
    requires Has(row, depth, n) && k <= n
    ensures Has(row, depth, k)
  {
    assert n * depth == k * depth + (n - k) * depth;
  }

  lemma IndexInside(row: seq<Byte>, depth: nat, k: nat)
    requires depth in {1, 2, 4} && Has(row, depth, k + 1)
    ensures Index(depth, k) < |row|
  {}

  /** Sample `k` of a scanline, as it is put out. */
  function InSample(f: Format, row: seq<Byte>, k: nat): (v: nat)
    requires f.Valid() && Has(row, f.depth, k + 1)
    ensures v <= f.Opaque()
  {
    if f.depth < 8 then
      IndexInside(row, f.depth, k);
      ScaledFits(f, Packed(row, f.depth, k));
      f.Scale() * Packed(row, f.depth, k)
    else if f.depth == 8 then row[k]
    else 256 * row[2 * k] as nat + row[2 * k + 1] as nat
  }

  lemma ScaledFits(f: Format, v: nat)
    requires f.depth in {1, 2, 4} && v < Pow2(f.depth)
    ensures f.Scale() * v <= 255
  {
    Pow2Small();
  }

  /** The input sample that output sample `s` comes from; -1 for inserted alpha. */
  function Source(f: Format, s: nat): (k: int)
    requires f.Valid()
    ensures k >= -1
  {
    if f.out_n == f.img_n then s
    else if s % f.out_n == f.img_n then -1
    else s / f.out_n * f.img_n + s % f.out_n
  }

  lemma SourceInside(f: Format, x: nat, s: nat)
    requires f.Valid() && s < f.Outs(x)
    ensures Source(f, s) < f.Ins(x)
  {
    if f.out_n != f.img_n {
      assert f.img_n == 1 || f.img_n == 3;
    }
  }

  /** Sample `s` of the output for a scanline of `x` pixels. */
  function OutSample(f: Format, row: seq<Byte>, x: nat, s: nat): (v: nat)
    requires f.Valid() && Has(row, f.depth, f.Ins(x)) && s < f.Outs(x)
    ensures v <= f.Opaque()
  {
    SourceInside(f, x, s);
    var k := Source(f, s);
    if k < 0 then f.Opaque()
    else
      HasFewer(row, f.depth, f.Ins(x), k + 1);
      InSample(f, row, k)
  }

  /** Byte `b` of the output: of a wide sample the half that the platform stores there. */
  function OutByte(f: Format, row: seq<Byte>, x: nat, b: nat): Byte
    requires f.Valid() && Has(row, f.depth, f.Ins(x)) && b < f.Bytes(x)
  {
    if f.depth == 16 then
      var v := OutSample(f, row, x, b / 2);
      if f.little == (b % 2 == 0) then v % 256 else v / 256
    else OutSample(f, row, x, b)
  }

  /** The pixels of a scanline. */
  function ExpandRow(f: Format, row: seq<Byte>, x: nat): (r: seq<Byte>)
    requires f.Valid() && Has(row, f.depth, f.Ins(x))
    ensures |r| == f.Bytes(x)
  {
    seq(f.Bytes(x), b requires 0 <= b < f.Bytes(x) => OutByte(f, row, x, b))
  }

  // --------------------------------------------------------------------- the loops

  /** Outside of `len` bytes at `at` the buffer is as it was. */
  twostate predicate Around(buf: array<Byte>, at: nat, len: nat)
    reads buf
  {
    forall i :: 0 <= i < buf.Length && !(at <= i < at + len) ==> buf[i] == old(buf[i])
  }

  lemma WholeByte(b: Byte)
    ensures Low(Shl(b, 0), 8) == b
  {
    Pow2Small();
    LowSmall(b, 8);
  }

  ghost predicate IsSample(f: Format, row: seq<Byte>, k: nat, v: nat)
    requires f.Valid()
  {
    Has(row, f.depth, k + 1) && v == InSample(f, row, k)
  }

  /** `inb` holds the byte of sample `i` with what precedes it shifted out. */
  ghost predicate Pending(row: seq<Byte>, depth: nat, i: nat, inb: nat) {
    Index(depth, i) < |row| && inb == Low(Shl(row[Index(depth, i)], Position(depth, i)), 8)
  }

  /** Sample `i` is the first of its byte: `(i & 1) == 0`, `(i & 3) == 0` or `(i & 7) == 0`. */
  predicate Begins(depth: nat, i: nat) {
    i % (if depth == 4 then 2 else if depth == 2 then 4 else 8) == 0
  }

  /** Bytes that the first `i` samples begin in. */
  function Begun(depth: nat, i: nat): nat {
    if depth == 4 then (i + 1) / 2 else if depth == 2 then (i + 3) / 4 else (i + 7) / 8
  }

  lemma BytesBegun(depth: nat, i: nat)
    requires depth in {1, 2, 4}
    ensures Begun(depth, 0) == 0 && Begins(depth, 0)
    ensures Begins(depth, i) ==> Begun(depth, i) == Index(depth, i) && Position(depth, i) == 0
    ensures Begun(depth, i + 1) == Begun(depth, i) + if Begins(depth, i) then 1 else 0
    ensures !Begins(depth, i + 1) ==>
      Index(depth, i + 1) == Index(depth, i) && Position(depth, i + 1) == Position(depth, i) + depth
  {}

  /** The sample at the top of `inb`, scaled. */
  function TopSample(f: Format, inb: nat): nat
    requires f.depth < 8
  {
    f.Scale() * Shr(inb, 8 - f.depth)
  }

  /** It is the next sample, and shifting it out leaves the rest. */
  lemma UnpackStep(f: Format, row: seq<Byte>, nsmp: nat, i: nat, inb: nat)
    requires f.Valid() && f.depth < 8 && Has(row, f.depth, nsmp) && i < nsmp && Pending(row, f.depth, i, inb)
    ensures TopSample(f, inb) <= 255 && IsSample(f, row, i, TopSample(f, inb))
    ensures Begins(f.depth, i + 1) || Pending(row, f.depth, i + 1, Low(Shl(inb, f.depth), 8))
  {
    hide Low, Shl, Shr, Begins, Begun, Index, Position, Format.Scale;
    HasFewer(row, f.depth, nsmp, i + 1);
    BytesBegun(f.depth, i);
    Pow2Small();
    var p := Position(f.depth, i);
    TopAfter(row[Index(f.depth, i)], p, f.depth, 8);
    ShiftOutTwice(row[Index(f.depth, i)], p, f.depth, 8);
    ScaledFits(f, Packed(row, f.depth, i));
  }

  /** A byte is about to be read. */
  lemma ByteBegins(row: seq<Byte>, depth: nat, nsmp: nat, i: nat)
    requires depth in {1, 2, 4} && Has(row, depth, nsmp) && i < nsmp && Begins(depth, i)
    ensures Begun(depth, i) < |row| && Pending(row, depth, i, row[Begun(depth, i)])
  {
    hide Low, Shl, Shr, Begins, Begun, Index, Position;
    HasFewer(row, depth, nsmp, i + 1);
    IndexInside(row, depth, i);
    BytesBegun(depth, i);
    WholeByte(row[Begun(depth, i)]);
  }

  /** The next byte, if sample `i` begins one; the next sample; and the rest of the byte. */
  method TakeSample(buf: array<Byte>, cur: nat, f: Format, nsmp: nat, i: nat, at: nat, inb: nat, ghost row: seq<Byte>)
    returns (v: Byte, at': nat, inb': nat)
    requires f.Valid() && f.depth < 8 && Has(row, f.depth, nsmp) && i < nsmp
    requires cur + |row| <= buf.Length && buf[cur..cur + |row|] == row
    requires at == Begun(f.depth, i) && (Begins(f.depth, i) || Pending(row, f.depth, i, inb))
    ensures IsSample(f, row, i, v)
    ensures at' == Begun(f.depth, i + 1) && (Begins(f.depth, i + 1) || Pending(row, f.depth, i + 1, inb'))
  {
    assert f.depth in {1, 2, 4};
    hide Low, Shl, TopSample, Has, IsSample, Pending, Begins, Begun;
    BytesBegun(f.depth, i);
    at', inb' := at, inb;
    if Begins(f.depth, i) {
      ByteBegins(row, f.depth, nsmp, i);
      inb' := buf[cur + at];
      assert inb' == row[at];
      at' := at + 1;
    }
    UnpackStep(f, row, nsmp, i, inb');
    v := TopSample(f, inb');
    inb' := Low(Shl(inb', f.depth), 8);
  }

  lemma NoneBegun(f: Format)
    requires f.Valid() && f.depth < 8
    ensures Begun(f.depth, 0) == 0 && Begins(f.depth, 0)
  {}

  /** The loops that expand samples of one, two and four bits to bytes. */
  method Unpack(out: array<Byte>, dst: nat, buf: array<Byte>, cur: nat, f: Format, nsmp: nat, ghost row: seq<Byte>)
    requires f.Valid() && f.depth < 8 && Has(row, f.depth, nsmp)
    requires out != buf && dst + nsmp <= out.Length && cur + |row| <= buf.Length && buf[cur..cur + |row|] == row
    modifies out
    ensures forall j :: dst <= j < dst + nsmp ==> IsSample(f, row, j - dst, out[j])
    ensures Around(out, dst, nsmp)
  {
    hide Has, IsSample, Pending, Begins, Begun, Format.Valid, Depth;
    NoneBegun(f);
    var inb: nat, at: nat := 0, 0;
    var i := 0;
    while i < nsmp
      invariant 0 <= i <= nsmp && at == Begun(f.depth, i)
      invariant Begins(f.depth, i) || Pending(row, f.depth, i, inb)
      invariant forall j :: dst <= j < dst + i ==> IsSample(f, row, j - dst, out[j])
      invariant Around(out, dst, nsmp)
    {
      var v;
      v, at, inb := TakeSample(buf, cur, f, nsmp, i, at, inb, row);
      out[dst + i] := v;
      i := i + 1;
    }
  }

  /** Where `stbi__create_png_alpha_expand8` takes sample `s` from; -1 for 255. */
  function Unexpanded(n: nat, s: nat): int {
    if s % (n + 1) == n then -1 else s / (n + 1) * n + s % (n + 1)
  }

  /** `now` is `v`, a sample moved from `from`, or the alpha that has no source. */
  ghost predicate Moved(src: seq<Byte>, from: nat, n: nat, s: nat, v: Byte) {
    var k := Unexpanded(n, s);
    if k < 0 then v == 255 else from + k < |src| && v == src[from + k]
  }

  /** `stbi__create_png_alpha_expand8`, one channel; backwards, since the buffers may be one. */
  method ExpandGrey(dest: array<Byte>, to: nat, src: array<Byte>, from: nat, x: nat)
    requires to + 2 * x <= dest.Length && from + x <= src.Length && (dest == src ==> from == to)
    modifies dest
    ensures forall j :: to <= j < to + 2 * x ==> Moved(old(src[..]), from, 1, j - to, dest[j])
    ensures Around(dest, to, 2 * x)
  {
    var i := x;
    while i > 0
      invariant 0 <= i <= x
      invariant forall j :: to + 2 * i <= j < to + 2 * x ==> Moved(old(src[..]), from, 1, j - to, dest[j])
      invariant forall j :: from <= j < from + i ==> src[j] == old(src[j])
      invariant Around(dest, to, 2 * x)
    {
      i := i - 1;
      dest[to + 2 * i + 1] := 255;
      dest[to + 2 * i] := src[from + i];
    }
  }

  /** One pixel of three channels and its alpha; the last sample first. */
  method ColorPixel(dest: array<Byte>, to: nat, src: array<Byte>, from: nat, i: nat)
    requires to + 4 * i + 3 < dest.Length && from + 3 * i + 2 < src.Length && (dest == src ==> from == to)
    modifies dest
    ensures forall j :: to + 4 * i <= j < to + 4 * i + 4 ==> Moved(old(src[..]), from, 3, j - to, dest[j])
    ensures Around(dest, to + 4 * i, 4)
  {
    dest[to + 4 * i + 3] := 255;
    dest[to + 4 * i + 2] := src[from + 3 * i + 2];
    dest[to + 4 * i + 1] := src[from + 3 * i + 1];
    dest[to + 4 * i] := src[from + 3 * i];
  }

  /** The same pixel of a buffer that is as it was up to there. */
  lemma SamePixel(now: seq<Byte>, was: seq<Byte>, from: nat, i: nat, s: nat, v: Byte)
    requires |now| == |was| && from + 3 * i + 2 < |was| && 4 * i <= s < 4 * i + 4
    requires forall j :: from <= j < from + 3 * i + 3 ==> now[j] == was[j]
    ensures Moved(now, from, 3, s, v) <==> Moved(was, from, 3, s, v)
  {}

  /** Three channels. */
  method ExpandColor(dest: array<Byte>, to: nat, src: array<Byte>, from: nat, x: nat)
    requires to + 4 * x <= dest.Length && from + 3 * x <= src.Length && (dest == src ==> from == to)
    modifies dest
    ensures forall j :: to <= j < to + 4 * x ==> Moved(old(src[..]), from, 3, j - to, dest[j])
    ensures Around(dest, to, 4 * x)
  {
    hide Moved;
    ghost var was := src[..];
    var i := x;
    while i > 0
      invariant 0 <= i <= x
      invariant forall j :: to + 4 * i <= j < to + 4 * x ==> Moved(was, from, 3, j - to, dest[j])
      invariant forall j :: from <= j < from + 3 * i ==> src[j] == was[j]
      invariant Around(dest, to, 4 * x)
    {
      i := i - 1;
      ghost var now := src[..];
      ColorPixel(dest, to, src, from, i);
      forall j | to + 4 * i <= j < to + 4 * i + 4
        ensures Moved(was, from, 3, j - to, dest[j])
      {
        SamePixel(now, was, from, i, j - to, dest[j]);
      }
    }
  }

  ghost predicate IsOut(f: Format, row: seq<Byte>, x: nat, b: int, v: Byte)
    requires f.Valid() && Has(row, f.depth, f.Ins(x))
  {
    0 <= b < f.Bytes(x) && v == OutByte(f, row, x, b)
  }

  /** A wide sample in the platform's byte order. */
  method StoreWide(out: array<Byte>, at: nat, v: nat, little: bool)
    requires at + 2 <= out.Length && v <= 0xFFFF
    modifies out
    ensures out[at] == (if little then v % 256 else v / 256) && out[at + 1] == if little then v / 256 else v % 256
    ensures Around(out, at, 2)
  {
    out[at] := if little then v % 256 else v / 256;
    out[at + 1] := if little then v / 256 else v % 256;
  }

  /** A wide sample from the two bytes of the scanline, or alpha. */
  ghost predicate WideValue(row: seq<Byte>, k: int, v: nat) {
    if k < 0 then v == 0xFFFF else 2 * k + 1 < |row| && v == 256 * row[2 * k] as nat + row[2 * k + 1] as nat
  }

  lemma WideSample(f: Format, row: seq<Byte>, x: nat, s: nat, v: nat)
    requires f.Valid() && f.depth == 16 && Has(row, f.depth, f.Ins(x)) && s < f.Outs(x)
    requires WideValue(row, Source(f, s), v)
    ensures OutSample(f, row, x, s) == v <= 0xFFFF
  {
    hide Source;
    SourceInside(f, x, s);
    var k := Source(f, s);
    if k >= 0 {
      HasFewer(row, 16, f.Ins(x), k + 1);
    }
  }

  lemma WideBytes(f: Format, row: seq<Byte>, x: nat, s: nat, v: nat)
    requires f.Valid() && f.depth == 16 && Has(row, f.depth, f.Ins(x)) && s < f.Outs(x)
    requires WideValue(row, Source(f, s), v)
    ensures v <= 0xFFFF
    ensures IsOut(f, row, x, 2 * s, if f.little then v % 256 else v / 256)
    ensures IsOut(f, row, x, 2 * s + 1, if f.little then v / 256 else v % 256)
  {
    hide Has, OutSample, Source, WideValue;
    WideSample(f, row, x, s, v);
  }

  /** Output sample `s` of a scanline of wide samples. */
  method PutWide(out: array<Byte>, dst: nat, buf: array<Byte>, cur: nat, f: Format, x: nat, s: nat, k: int,
                 ghost row: seq<Byte>)
    requires f.Valid() && f.depth == 16 && Has(row, f.depth, f.Ins(x)) && s < f.Outs(x) && k == Source(f, s)
    requires out != buf && dst + f.Bytes(x) <= out.Length
    requires cur + |row| <= buf.Length && buf[cur..cur + |row|] == row
    modifies out
    ensures dst + 2 * s + 1 < out.Length
    ensures IsOut(f, row, x, 2 * s, out[dst + 2 * s]) && IsOut(f, row, x, 2 * s + 1, out[dst + 2 * s + 1])
    ensures Around(out, dst + 2 * s, 2)
  {
    SourceInside(f, x, s);
    var v := 0xFFFF;
    if k >= 0 {
      HasFewer(row, 16, f.Ins(x), k + 1);
      assert buf[cur + 2 * k] == row[2 * k] && buf[cur + 2 * k + 1] == row[2 * k + 1];
      v := 256 * buf[cur + 2 * k] as nat + buf[cur + 2 * k + 1] as nat;
    }
    WideBytes(f, row, x, s, v);
    StoreWide(out, dst + 2 * s, v, f.little);
  }

  /** The loop for wide samples without an added channel. */
  method WidePlain(out: array<Byte>, dst: nat, buf: array<Byte>, cur: nat, f: Format, x: nat, ghost row: seq<Byte>)
    requires f.Valid() && f.depth == 16 && f.out_n == f.img_n && Has(row, f.depth, f.Ins(x))
    requires out != buf && dst + f.Bytes(x) <= out.Length
    requires cur + |row| <= buf.Length && buf[cur..cur + |row|] == row
    modifies out
    ensures forall j :: dst <= j < dst + f.Bytes(x) ==> IsOut(f, row, x, j - dst, out[j])
    ensures Around(out, dst, f.Bytes(x))
  {
    hide Has, IsOut;
    var i := 0;
    while i < f.Ins(x)
      invariant 0 <= i <= f.Ins(x)
      invariant forall j :: dst <= j < dst + 2 * i ==> IsOut(f, row, x, j - dst, out[j])
      invariant Around(out, dst, f.Bytes(x))
    {
      PutWide(out, dst, buf, cur, f, x, i, i, row);
      i := i + 1;
    }
  }

  /** Of one channel with alpha. */
  method WideGrey(out: array<Byte>, dst: nat, buf: array<Byte>, cur: nat, f: Format, x: nat, ghost row: seq<Byte>)
    requires f.Valid() && f.depth == 16 && f.img_n == 1 && f.out_n == 2 && Has(row, f.depth, f.Ins(x))
    requires out != buf && dst + f.Bytes(x) <= out.Length
    requires cur + |row| <= buf.Length && buf[cur..cur + |row|] == row
    modifies out
    ensures forall j :: dst <= j < dst + f.Bytes(x) ==> IsOut(f, row, x, j - dst, out[j])
    ensures Around(out, dst, f.Bytes(x))
  {
    hide Has, IsOut;
    var i := 0;
    while i < x
      invariant 0 <= i <= x
      invariant forall j :: dst <= j < dst + 4 * i ==> IsOut(f, row, x, j - dst, out[j])
      invariant Around(out, dst, f.Bytes(x))
    {
      PutWide(out, dst, buf, cur, f, x, 2 * i, i, row);
      PutWide(out, dst, buf, cur, f, x, 2 * i + 1, -1, row);
      i := i + 1;
    }
  }

  /** Of three channels with alpha. */
  method WideColor(out: array<Byte>, dst: nat, buf: array<Byte>, cur: nat, f: Format, x: nat, ghost row: seq<Byte>)
    requires f.Valid() && f.depth == 16 && f.img_n == 3 && f.out_n == 4 && Has(row, f.depth, f.Ins(x))
    requires out != buf && dst + f.Bytes(x) <= out.Length
    requires cur + |row| <= buf.Length && buf[cur..cur + |row|] == row
    modifies out
    ensures forall j :: dst <= j < dst + f.Bytes(x) ==> IsOut(f, row, x, j - dst, out[j])
    ensures Around(out, dst, f.Bytes(x))
  {
    hide Has, IsOut;
    var i := 0;
    while i < x
      invariant 0 <= i <= x
      invariant forall j :: dst <= j < dst + 8 * i ==> IsOut(f, row, x, j - dst, out[j])
      invariant Around(out, dst, f.Bytes(x))
    {
      PutWide(out, dst, buf, cur, f, x, 4 * i, 3 * i, row);
      PutWide(out, dst, buf, cur, f, x, 4 * i + 1, 3 * i + 1, row);
      PutWide(out, dst, buf, cur, f, x, 4 * i + 2, 3 * i + 2, row);
      PutWide(out, dst, buf, cur, f, x, 4 * i + 3, -1, row);
      i := i + 1;
    }
  }

  lemma NarrowOut(f: Format, row: seq<Byte>, x: nat, s: nat, v: Byte)
    requires f.Valid() && f.depth <= 8 && Has(row, f.depth, f.Ins(x)) && s < f.Outs(x)
    requires var k := Source(f, s); if k < 0 then v == 255 else IsSample(f, row, k, v)
    ensures IsOut(f, row, x, s, v)
  {
    hide InSample;
    SourceInside(f, x, s);
  }

  /** `stbi__create_png_alpha_expand8`. */
  method AlphaExpand(dest: array<Byte>, to: nat, src: array<Byte>, from: nat, f: Format, x: nat)
    requires f.Valid() && f.out_n == f.img_n + 1
    requires to + f.Outs(x) <= dest.Length && from + f.Ins(x) <= src.Length && (dest == src ==> from == to)
    modifies dest
    ensures forall j :: to <= j < to + f.Outs(x) ==> Moved(old(src[..]), from, f.img_n, j - to, dest[j])
    ensures Around(dest, to, f.Outs(x))
  {
    if f.img_n == 1 {
      ExpandGrey(dest, to, src, from, x);
    } else {
      ExpandColor(dest, to, src, from, x);
    }
  }

  lemma MovedSample(f: Format, row: seq<Byte>, x: nat, src: seq<Byte>, from: nat, s: nat, v: Byte)
    requires f.Valid() && f.depth <= 8 && f.out_n == f.img_n + 1 && Has(row, f.depth, f.Ins(x)) && s < f.Outs(x)
    requires from + f.Ins(x) <= |src| && forall j :: from <= j < from + f.Ins(x) ==> IsSample(f, row, j - from, src[j])
    requires Moved(src, from, f.img_n, s, v)
    ensures IsOut(f, row, x, s, v)
  {
    hide InSample, Has, IsOut, IsSample;
    SourceInside(f, x, s);
    var k := Source(f, s);
    assert k == Unexpanded(f.img_n, s);
    if k >= 0 {
      assert IsSample(f, row, from + k - from, src[from + k]);
    }
    NarrowOut(f, row, x, s, v);
  }

  /** Samples of up to four bits. */
  method ExpandBits(out: array<Byte>, dst: nat, buf: array<Byte>, cur: nat, f: Format, x: nat, ghost row: seq<Byte>)
    requires f.Valid() && f.depth < 8 && Has(row, f.depth, f.Ins(x))
    requires out != buf && dst + f.Bytes(x) <= out.Length
    requires cur + |row| <= buf.Length && buf[cur..cur + |row|] == row
    modifies out
    ensures forall j :: dst <= j < dst + f.Bytes(x) ==> IsOut(f, row, x, j - dst, out[j])
    ensures Around(out, dst, f.Bytes(x))
  {
    hide Has, IsOut, IsSample, Moved;
    InsOuts(f, x);
    Unpack(out, dst, buf, cur, f, f.Ins(x), row);
    ghost var unpacked := out[..];
    if f.img_n != f.out_n {
      AlphaExpand(out, dst, out, dst, f, x);
      forall j | dst <= j < dst + f.Bytes(x)
        ensures IsOut(f, row, x, j - dst, out[j])
      {
        MovedSample(f, row, x, unpacked, dst, j - dst, out[j]);
      }
    } else {
      forall j | dst <= j < dst + f.Bytes(x)
        ensures IsOut(f, row, x, j - dst, out[j])
      {
        NarrowOut(f, row, x, j - dst, out[j]);
      }
    }
  }

  lemma InsOuts(f: Format, x: nat)
    requires f.Valid()
    ensures f.Ins(x) <= f.Outs(x) && (f.out_n == f.img_n ==> f.Ins(x) == f.Outs(x))
    ensures f.Bytes(x) == x * f.OutBytes()
  {}

  lemma ByteSamples(f: Format, row: seq<Byte>, x: nat, k: nat)
    requires f.Valid() && f.depth == 8 && Has(row, f.depth, f.Ins(x)) && k < f.Ins(x)
    ensures k < |row| && IsSample(f, row, k, row[k])
  {}

  /** Samples of eight bits. */
  method ExpandBytes(out: array<Byte>, dst: nat, buf: array<Byte>, cur: nat, f: Format, x: nat, ghost row: seq<Byte>)
    requires f.Valid() && f.depth == 8 && Has(row, f.depth, f.Ins(x))
    requires out != buf && dst + f.Bytes(x) <= out.Length
    requires cur + |row| <= buf.Length && buf[cur..cur + |row|] == row
    modifies out
    ensures forall j :: dst <= j < dst + f.Bytes(x) ==> IsOut(f, row, x, j - dst, out[j])
    ensures Around(out, dst, f.Bytes(x))
  {
    hide IsOut, IsSample, Moved;
    InsOuts(f, x);
    forall j | cur <= j < cur + f.Ins(x)
      ensures IsSample(f, row, j - cur, buf[j])
    {
      ByteSamples(f, row, x, j - cur);
      assert buf[j] == row[j - cur];
    }
    if f.img_n == f.out_n {
      forall i | 0 <= i < f.Ins(x) {
        out[dst + i] := buf[cur + i];
      }
      forall j | dst <= j < dst + f.Bytes(x)
        ensures IsOut(f, row, x, j - dst, out[j])
      {
        assert out[dst + (j - dst)] == buf[cur + (j - dst)];
        NarrowOut(f, row, x, j - dst, out[j]);
      }
    } else {
      AlphaExpand(out, dst, buf, cur, f, x);
      forall j | dst <= j < dst + f.Bytes(x)
        ensures IsOut(f, row, x, j - dst, out[j])
      {
        MovedSample(f, row, x, buf[..], cur, j - dst, out[j]);
      }
    }
  }

  /** The expansion of one scanline, whatever its depth. */
  method ExpandLine(out: array<Byte>, dst: nat, buf: array<Byte>, cur: nat, f: Format, x: nat, ghost row: seq<Byte>)
    requires f.Valid() && Has(row, f.depth, f.Ins(x))
    requires out != buf && dst + f.Bytes(x) <= out.Length
    requires cur + |row| <= buf.Length && buf[cur..cur + |row|] == row
    modifies out
    ensures out[..dst + f.Bytes(x)] == old(out[..dst]) + ExpandRow(f, row, x)
  {
    hide Has, OutByte;
    if f.depth < 8 {
      ExpandBits(out, dst, buf, cur, f, x, row);
    } else if f.depth == 8 {
      ExpandBytes(out, dst, buf, cur, f, x, row);
    } else if f.img_n == f.out_n {
      WidePlain(out, dst, buf, cur, f, x, row);
    } else if f.img_n == 1 {
      WideGrey(out, dst, buf, cur, f, x, row);
    } else {
      WideColor(out, dst, buf, cur, f, x, row);
    }
    forall i | 0 <= i < f.Bytes(x)
      ensures out[dst + i] == ExpandRow(f, row, x)[i]
    {
      assert IsOut(f, row, x, dst + i - dst, out[dst + i]);
    }
    assert out[dst..dst + f.Bytes(x)] == ExpandRow(f, row, x);
    assert out[..dst + f.Bytes(x)] == out[..dst] + out[dst..dst + f.Bytes(x)];
  }

  // ------------------------------------------------------------------------ packing

  /** Samples put next to each other, the first in the highest bits. */
  function PackByte(ss: seq<nat>, depth: nat): nat {
    if |ss| == 0 then 0 else Shl(PackByte(ss[..|ss| - 1], depth), depth) + ss[|ss| - 1]
  }

  ghost predicate Samples(ss: seq<nat>, depth: nat) {
    forall i :: 0 <= i < |ss| ==> ss[i] < Pow2(depth)
  }

  lemma PackStep(rest: nat, last: nat, depth: nat, e: nat)
    requires last < Pow2(depth)
    ensures Low(Shr(Shl(rest, depth) + last, 0), depth) == last
    ensures Low(Shr(Shl(rest, depth) + last, depth + e), depth) == Low(Shr(rest, e), depth)
  {
    hide Low, Shl, Shr, Pow2;
    Compose(rest, last, depth);
    ShrStep(Shl(rest, depth) + last, 0);
    ShrShr(Shl(rest, depth) + last, depth, e);
  }

  /** Bits of `n` samples. */
  function BitsOf(n: nat, depth: nat): nat {
    n * depth
  }

  lemma StepBack(n: nat, depth: nat)
    ensures BitsOf(0, depth) == 0 && BitsOf(n + 1, depth) == depth + BitsOf(n, depth)
  {}

  /** A group of samples is found again in its byte. */
  lemma {:induction false} PackedAt(ss: seq<nat>, depth: nat, r: nat, e: nat)
    requires Samples(ss, depth) && r < |ss| && e == BitsOf(|ss| - 1 - r, depth)
    ensures Low(Shr(PackByte(ss, depth), e), depth) == ss[r]
    decreases |ss|
  {
    hide Low, Shl, Shr, Pow2, BitsOf;
    var n := |ss| - 1;
    StepBack(if r == n then 0 else n - 1 - r, depth);
    if r == n {
      PackStep(PackByte(ss[..n], depth), ss[n], depth, 0);
    } else {
      PackStep(PackByte(ss[..n], depth), ss[n], depth, e - depth);
      PackedAt(ss[..n], depth, r, e - depth);
    }
  }

  lemma {:induction false} PackFits(ss: seq<nat>, depth: nat)
    requires Samples(ss, depth)
    ensures PackByte(ss, depth) < Pow2(|ss| * depth)
  {
    hide Low, Shl, Shr, Pow2;
    if |ss| == 0 {
      Pow2Positive(0);
    } else {
      var n := |ss| - 1;
      PackFits(ss[..n], depth);
      ShlLess(PackByte(ss[..n], depth), Pow2(n * depth), depth);
      Pow2Add(n * depth, depth);
      assert |ss| * depth == n * depth + depth;
    }
  }

  /** Samples to a byte. */
  function PerByte(depth: nat): nat {
    if depth == 4 then 2 else if depth == 2 then 4 else 8
  }

  /** The samples of byte `i`, zeros after the last. */
  function Group(ss: seq<nat>, depth: nat, i: nat): (g: seq<nat>)
    ensures |g| == PerByte(depth)
  {
    seq(PerByte(depth), r requires 0 <= r < PerByte(depth) =>
      var k := i * PerByte(depth) + r; if k < |ss| then ss[k] else 0)
  }

  lemma GroupFits(ss: seq<nat>, depth: nat, i: nat)
    requires depth in {1, 2, 4} && Samples(ss, depth)
    ensures Samples(Group(ss, depth, i), depth) && PackByte(Group(ss, depth, i), depth) < 256
  {
    Pow2Small();
    hide PackByte;
    PackFits(Group(ss, depth, i), depth);
  }

  function PackGroup(ss: seq<nat>, depth: nat, i: nat): Byte
    requires depth in {1, 2, 4} && Samples(ss, depth)
  {
    GroupFits(ss, depth, i);
    PackByte(Group(ss, depth, i), depth)
  }

  /** A scanline of samples, as an encoder packs it (section 2.3). */
  function Pack(ss: seq<nat>, depth: nat): (row: seq<Byte>)
    requires depth in {1, 2, 4} && Samples(ss, depth)
    ensures |row| == (|ss| * depth + 7) / 8
  {
    seq((|ss| * depth + 7) / 8, i requires 0 <= i => PackGroup(ss, depth, i))
  }

  /** Unpacking gives back every sample that was packed. */
  lemma UnpackPack(ss: seq<nat>, depth: nat, k: nat)
    requires depth in {1, 2, 4} && Samples(ss, depth) && k < |ss|
    ensures Index(depth, k) < |Pack(ss, depth)| && Packed(Pack(ss, depth), depth, k) == ss[k]
  {
    hide PackByte, Low, Shr, Pow2;
    var i, r := Index(depth, k), k % PerByte(depth);
    assert k == i * PerByte(depth) + r;
    GroupFits(ss, depth, i);
    assert (PerByte(depth) - 1 - r) * depth == 8 - depth - Position(depth, k);
    PackedAt(Group(ss, depth, i), depth, r, 8 - depth - Position(depth, k));
  }
}
