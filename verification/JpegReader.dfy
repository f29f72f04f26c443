/**
 Reading JPEG entropy-coded data: the 32-bit buffer of `stbi__jpeg` filled by
 `stbi__grow_buffer_unsafe`, Huffman decoding and sign extension from it, and the
 combined `fast_ac` table.

 The buffer is read from the top: its highest `codeBits` bits are valid and the rest are
 zero.
 */
module JpegReader {
  import opened Bits
  import opened CanonicalCode
  import opened JpegHuffman
  import opened JpegSegment

  // ---------------------------------------------------- steps on a 32-bit buffer

  /** `code_buffer` and `code_bits`. */
  datatype Buf = Buf(bits: nat, n: int)

  ghost predicate Word(b: Buf) {
    b.bits < Pow2(32)
  }

  /** `code_buffer <<= s; code_bits -= s`. */
  function Consume(b: Buf, s: nat): Buf {
    Buf(Low(Shl(b.bits, s), 32), b.n - s)
  }

  /** The top sixteen bits. */
  function Window(b: Buf): (w: nat)
    requires b.bits < 0x1_0000_0000
    ensures w < 0x10000
  {
    Top(b.bits, 16);
    Shr(b.bits, 16)
  }

  /** The top nine bits, the index into the acceleration tables. */
  function FastIndex(b: Buf): (i: nat)
    requires b.bits < 0x1_0000_0000
    ensures i < FAST_SIZE
  {
    Top(b.bits, 9);
    Shr(b.bits, 23)
  }

  lemma Top(x: nat, n: nat)
    requires x < 0x1_0000_0000 && (n == 9 || n == 16)
    ensures Shr(x, 32 - n) < if n == 9 then FAST_SIZE else 0x10000
  {
    hide Shr, Pow2;
    Pow2ThirtyTwo();
    TopBits(x, n, 32);
    Pow2Nine();
    Pow2Sixteen();
  }

  /** The table part of `stbi__jpeg_huff_decode`, after the buffer is refilled. */
  ghost function DecodeStep(t: Table, values: seq<nat>, b: Buf): (int, Buf)
    requires t.Shape() && |values| == 256 && b.bits < 0x1_0000_0000
  {
    var fail: int := -1;
    var r := Lookup(t, Window(b));
    if r == (-1, 17) then (fail, Buf(b.bits, b.n - 16))
    else if r.1 > b.n || r.0 < 0 || r.0 >= 256 then (fail, b)
    else (values[r.0], Consume(b, r.1))
  }

  /** EXTEND of section F.2.2.1: `v` is an `n`-bit magnitude, negative when its top bit is clear. */
  function Extend(v: int, n: nat): int
    requires n >= 1
  {
    if v < Pow2(n - 1) then v + 1 - Pow2(n) else v
  }

  /** `stbi__jbias[n]`. */
  function Bias(n: nat): int {
    1 - Pow2(n)
  }

  /** `stbi_lrot`. */
  function Lrot(x: nat, n: nat): nat
    requires n <= 32
  {
    BitOr(Low(Shl(x, n), 32), Shr(x, 32 - n))
  }

  /** The body of `stbi__extend_receive`, after the buffer is refilled. */
  function ExtendStep(b: Buf, n: nat): (int, Buf)
    requires 1 <= n <= 15
  {
    var sgn := Shr(b.bits, 31);
    var k := Lrot(b.bits, n);
    (Low(k, n) + (if sgn == 1 then 0 else Bias(n)), Buf(k - Low(k, n), b.n - n))
  }

  /** A rotation puts the shifted word above the bits that fell out. */
  lemma LrotParts(x: nat, n: nat, w: nat)
    requires n <= w && x < Pow2(w)
    ensures var k := BitOr(Low(Shl(x, n), w), Shr(x, w - n));
      Low(k, n) == Shr(x, w - n) && k - Low(k, n) == Low(Shl(x, n), w)
  {
    hide Low, Shl, Shr, Pow2, BitOr;
    ShiftOut(x, n, w);
    TopBits(x, n, w);
    BitOrHigh(Low(x, w - n), Shr(x, w - n), n);
    Compose(Low(x, w - n), Shr(x, w - n), n);
  }

  lemma TopBits(x: nat, n: nat, w: nat)
    requires n <= w && x < Pow2(w)
    ensures Shr(x, w - n) < Pow2(n)
  {
    hide Shl, Shr, Pow2;
    ShrInterval(x, w - n, Pow2(n));
    Pow2Add(n, w - n);
  }

  /** The sign bit says whether the top `n` bits are in the upper half of their range. */
  lemma SignBit(x: nat, n: nat, w: nat)
    requires 1 <= n <= w && x < Pow2(w)
    ensures Shr(x, w - 1) <= 1
    ensures Shr(x, w - 1) == 0 <==> Shr(x, w - n) < Pow2(n - 1)
  {
    hide Shl, Shr, Pow2;
    TopBits(x, 1, w);
    Pow2Step(1);
    Pow2Step(0);
    ShrShr(x, w - n, n - 1);
    ShrInterval(Shr(x, w - n), n - 1, 1);
    ShlOne(n - 1);
  }

  /** `stbi__extend_receive` takes the top `n` bits and extends their sign. */
  lemma ExtendStepCorrect(b: Buf, n: nat)
    requires 1 <= n <= 15 && Word(b)
    ensures ExtendStep(b, n) == (Extend(Shr(b.bits, 32 - n), n), Consume(b, n))
  {
    hide Low, Shl, Shr, Pow2, BitOr;
    LrotParts(b.bits, n, 32);
    SignBit(b.bits, n, 32);
  }

  // ------------------------------------------------------------- combined table

  /** One entry of `stbi__build_fast_ac`. */
  ghost function FastAcEntry(t: Table, values: seq<nat>, i: nat): int
    requires t.Shape() && |values| == 256 && i < FAST_SIZE
  {
    var f := t.fast[i];
    if f >= NOT_FAST then 0
    else
      var rs := values[f];
      var run, magbits, len := rs / 16 % 16, rs % 16, t.size[f];
      if magbits != 0 && len + magbits <= FAST_BITS then
        var k0 := Shr(Low(Shl(i, len), FAST_BITS), FAST_BITS - magbits);
        var m := Shl(1, magbits - 1);
        var k := if k0 < m then k0 - Pow2(magbits) + 1 else k0;
        if -128 <= k <= 127 then k * 256 + run * 16 + (len + magbits) else 0
      else 0
  }

  /** Unpacking an entry: the magnitude with its sign, the run, and the bits used. */
  lemma EntryParts(k: int, run: nat, bits: nat)
    requires run < 16 && 1 <= bits <= 9
    ensures var e := k * 256 + run * 16 + bits;
      e != 0 && e / 256 == k && e / 16 % 16 == run && e % 16 == bits
    ensures -128 <= k <= 127 ==> -0x8000 <= k * 256 + run * 16 + bits < 0x8000
  {
    var e := k * 256 + run * 16 + bits;
    DivMod(e, 256, k, run * 16 + bits);
    DivMod(e, 16, k * 16 + run, bits);
    DivMod(k * 16 + run, 16, k, run);
  }

  lemma FastSymbol(t: Table, lens: seq<nat>, i: nat)
    requires TableFor(t, lens) && i < FAST_SIZE
    ensures t.Shape()
    ensures t.fast[i] < NOT_FAST ==> t.fast[i] < |lens| <= 256 && 1 <= t.size[t.fast[i]] <= FAST_BITS
  {
    hide Shl, Shr, KraftHolds, CodeOf, EndCode, FirstCode, Shorter, Matches;
    var f := t.fast[i];
    assert FastEntry(lens, |lens|, i, f);
    if f < NOT_FAST {
      MatchLength(lens, f, i, FAST_BITS);
      assert t.size[..|lens|][f] == t.size[f];
    }
  }

  /**
   Wherever the combined table has an entry, using it is decoding the symbol and then
   receiving and extending its magnitude: same run, same coefficient, same bits used.
   */
  lemma FastAcAgrees(t: Table, lens: seq<nat>, values: seq<nat>, b: Buf)
    requires TableFor(t, lens) && |values| == 256 && (forall v :: v in values ==> v < 256)
    requires b.bits < 0x1_0000_0000
    requires var e := FastAcEntry(t, values, FastIndex(b)); e != 0 && e % 16 <= b.n
    ensures var e := FastAcEntry(t, values, FastIndex(b));
      var (rs, b1) := DecodeStep(t, values, b);
      && 1 <= rs % 16 <= 15 && rs / 16 == e / 16 % 16
      && ExtendStep(b1, rs % 16) == (e / 256, Consume(b, e % 16))
  {
    hide Low, Shl, Shr, Pow2, BitOr, TableFor, Extend, ExtendStep, FastAcEntry, DecodeStep;
    var i := FastIndex(b);
    FastSymbol(t, lens, i);
    EntryIs(t, values, i);
    var f := t.fast[i];
    var len, m := t.size[f], values[f] % 16;
    EntryStep(t, values, b, f);
    Pow2ThirtyTwo();
    MagnitudeBits(b.bits, len, m, 32);
    ExtendStepCorrect(Consume(b, len), m);
    ShiftOutTwice(b.bits, len, m, 32);
  }

  /** An entry is the run, the extended magnitude and the bits of its symbol. */
  lemma EntryIs(t: Table, values: seq<nat>, i: nat)
    requires t.Shape() && |values| == 256 && (forall v :: v in values ==> v < 256) && i < FAST_SIZE
    requires FastAcEntry(t, values, i) != 0 && (t.fast[i] < NOT_FAST ==> 1 <= t.size[t.fast[i]] <= FAST_BITS)
    ensures t.fast[i] < NOT_FAST
    ensures var e, rs, len := FastAcEntry(t, values, i), values[t.fast[i]], t.size[t.fast[i]];
      && 1 <= rs % 16 && len + rs % 16 <= FAST_BITS && rs < 256
      && e % 16 == len + rs % 16 && e / 16 % 16 == rs / 16 && -128 <= e / 256 <= 127
      && e / 256 == Extend(Shr(Low(Shl(i, len), FAST_BITS), FAST_BITS - rs % 16), rs % 16)
  {
    hide Low, Shl, Shr, Pow2, Extend;
    var f := t.fast[i];
    var rs, len := values[f], t.size[f];
    assert rs in values;
    var m := rs % 16;
    ShlOne(m - 1);
    var k0 := Shr(Low(Shl(i, len), FAST_BITS), FAST_BITS - m);
    ExtendIs(k0, m);
    EntryParts(if k0 < Pow2(m - 1) then k0 - Pow2(m) + 1 else k0, rs / 16 % 16, len + m);
  }

  /** There is an entry for every symbol whose code and magnitude fit nine bits and whose value fits a byte. */
  lemma EntryThere(t: Table, values: seq<nat>, i: nat, f: nat)
    requires t.Shape() && |values| == 256 && i < FAST_SIZE
    requires f == t.fast[i] < NOT_FAST && values[f] < 256 && values[f] % 16 != 0 && t.size[f] + values[f] % 16 <= FAST_BITS
    requires -128 <= Extend(Shr(Low(Shl(i, t.size[f]), FAST_BITS), FAST_BITS - values[f] % 16), values[f] % 16) <= 127
    ensures FastAcEntry(t, values, i) != 0
  {
    hide Low, Shl, Shr, Pow2, Extend;
    var rs, len := values[f], t.size[f];
    var m := rs % 16;
    ShlOne(m - 1);
    var k0 := Shr(Low(Shl(i, len), FAST_BITS), FAST_BITS - m);
    ExtendIs(k0, m);
    EntryParts(if k0 < Pow2(m - 1) then k0 - Pow2(m) + 1 else k0, rs / 16 % 16, len + m);
  }

  /** Where the fast table has a symbol, decoding gives its value. */
  lemma EntryStep(t: Table, values: seq<nat>, b: Buf, f: nat)
    requires t.Shape() && |values| == 256 && b.bits < 0x1_0000_0000
    requires f == t.fast[FastIndex(b)] < NOT_FAST && t.size[f] <= b.n && t.size[f] <= 16
    ensures DecodeStep(t, values, b) == (values[f], Consume(b, t.size[f]))
  {
    hide Shr, Low, Shl, SlowLength;
    ShrShr(b.bits, 16, 7);
  }

  lemma ExtendIs(v: int, n: nat)
    requires n >= 1
    ensures Extend(v, n) == if v < Pow2(n - 1) then v - Pow2(n) + 1 else v
  {}

  lemma Pow2ThirtyTwo()
    ensures Pow2(32) == 0x1_0000_0000
  {
    hide Pow2;
    Pow2Sixteen();
    Pow2Add(16, 16);
    ShlSixteen(0x10000);
  }

  lemma ShlSixteen(x: nat)
    ensures Shl(x, 16) == 0x10000 * x
  {
    hide Shl;
    ShlShl(x, 8, 8);
    ShlByte(x);
    ShlByte(256 * x);
  }

  /** The magnitude as the table computes it from the index is the magnitude in the buffer. */
  lemma MagnitudeBits(x: nat, len: nat, m: nat, w: nat)
    requires 1 <= m && len + m <= FAST_BITS <= w && x < Pow2(w)
    ensures Shr(Low(Shl(Shr(x, w - FAST_BITS), len), FAST_BITS), FAST_BITS - m)
         == Shr(Low(Shl(x, len), w), w - m)
  {
    hide Low, Shl, Shr, Pow2;
    TopBits(x, FAST_BITS, w);
    TopAfter(Shr(x, w - FAST_BITS), len, m, FAST_BITS);
    TopAfter(x, len, m, w);
    ShrShr(x, w - FAST_BITS, FAST_BITS - len - m);
  }

  class JpegBits {
    const data: seq<Byte>
    var next: nat
    var nomore: bool
    var marker: Byte
    var codeBuffer: nat
    var codeBits: int
    ghost var pos: nat

    ghost function Segment(): seq<Byte> {
      Unstuffed(data, 0)
    }

    /** How far the segment has been read. */
    ghost function Here(): Cursor
      reads this
    {
      Cursor(pos, codeBits, nomore)
    }

    /** The segment ends in a marker. */
    ghost predicate Ends() {
      Marked(data, 0)
    }

    /** The buffer's top `codeBits` bits are the segment's bits at `pos`. */
    ghost predicate Valid()
      reads this
    {
      && next <= |data|
      && Standing(data, next, Here())
      && codeBuffer == Shl(SegBits(Segment(), pos, codeBits), 32 - codeBits)
    }

    constructor (data: seq<Byte>)
      ensures this.data == data && Valid() && pos == 0 && !nomore && codeBits == 0
    {
      this.data := data;
      next, nomore, marker, codeBuffer, codeBits, pos := 0, false, 0xFF, 0, 0, 0;
      new;
      ShlZero(32);
    }

    /** `stbi__get8`. */
    method Get8() returns (b: Byte)
      requires next <= |data|
      modifies this`next
      ensures old(next) < |data| ==> b == data[old(next)] && next == old(next) + 1
      ensures old(next) == |data| ==> b == 0 && next == old(next)
    {
      b := 0;
      if next < |data| {
        b := data[next];
        next := next + 1;
      }
    }

    /** The byte after any fill bytes. */
    method SkipFillBytes() returns (c: Byte)
      requires next <= |data|
      modifies this`next
      ensures next <= |data|
      ensures var j := SkipFill(data, old(next));
        if j < |data| then c == data[j] && next == j + 1 else c == 0 && next == |data|
    {
      ghost var j := SkipFill(data, next);
      c := Get8();
      while c == 0xFF
        invariant next <= |data|
        invariant c == 0xFF ==> SkipFill(data, next) == j
        invariant c != 0xFF ==> if j < |data| then c == data[j] && next == j + 1 else c == 0 && next == |data|
        decreases |data| - next, if c == 0xFF then 1 else 0
      {
        c := Get8();
      }
    }

    /** One byte for `stbi__grow_buffer_unsafe`, or a marker. */
    method NextByte() returns (b: Byte, stop: bool)
      requires next <= |data|
      modifies this`next, this`nomore, this`marker
      ensures next <= |data|
      ensures stop ==> nomore && !old(nomore)
      ensures !stop ==> nomore == old(nomore)
      ensures var rest := RestOf(data, old(next), old(nomore));
        && (rest == [] && !old(nomore) ==> stop == Marked(data, old(next)))
        && (rest != [] ==> !stop)
        && (!stop ==> Follows(data, old(next), next, nomore, b))
    {
      stop := false;
      if nomore {
        b := 0;
      } else {
        b := Get8();
      }
      if b == 0xFF {
        var c := SkipFillBytes();
        if c != 0 {
          marker := c;
          nomore := true;
          stop := true;
        }
      }
    }

    /** One round of `stbi__grow_buffer_unsafe`: a byte, or the marker after the last one. */
    method GrowByte() returns (stop: bool)
      requires Valid() && codeBits <= 24
      modifies this`next, this`nomore, this`marker, this`codeBuffer, this`codeBits
      ensures Valid()
      ensures stop ==> Ends() && !old(nomore) && Here() == old(Here()).(met := true) && pos + codeBits == 8 * |Segment()|
      ensures !stop ==> Here() == old(Here()).(bits := old(codeBits) + 8)
    {
      hide SegBits, Shl, Pow2, BitOr, Standing, Follows;
      ghost var c, from := Here(), next;
      StandingValid(data, next, c);
      var b;
      b, stop := NextByte();
      if stop {
        MarkerStands(data, from, next, c);
        return;
      }
      ByteIs(data, from, next, c, b);
      ByteStands(data, from, next, c, b);
      AppendTop(Segment(), pos, codeBits, b, 32);
      codeBuffer := BitOr(codeBuffer, Shl(b, 24 - codeBits));
      codeBits := codeBits + 8;
    }

    /**
     `stbi__grow_buffer_unsafe`: at least 25 bits, unless a marker is met on the way; zeros
     after the data, and after a marker met before.
     */
    method GrowBuffer()
      requires Valid() && codeBits <= 24
      modifies this`next, this`nomore, this`marker, this`codeBuffer, this`codeBits
      ensures Valid() && Here() == Grown(|Segment()|, Ends(), old(Here()))
    {
      hide SegBits, Shl, Standing;
      var more := true;
      ghost var k := 0;
      while more
        invariant Valid() && Here() == old(Here()).(bits := old(codeBits) + 8 * k)
        invariant if more then codeBits <= 24 else 24 < codeBits <= 32
        decreases 33 - codeBits
      {
        var stop := GrowByte();
        if stop {
          return;
        }
        k := k + 1;
        more := codeBits <= 24;
      }
      StandingValid(data, next, Here());
    }

    ghost function Buffer(): Buf
      reads this
    {
      Buf(codeBuffer, codeBits)
    }

    /** The loop that looks for the code length. */
    method SearchLength(h: JHuffman, temp: nat) returns (k: nat)
      requires h.Shape() && h.View().Shape() && temp < 0x10000
      ensures FAST_BITS < k <= 17 && k == SlowLength(h.View(), temp, FAST_BITS + 1)
    {
      k := FAST_BITS + 1;
      while temp >= h.maxcode[k]
        invariant FAST_BITS < k <= 17
        invariant SlowLength(h.View(), temp, k) == SlowLength(h.View(), temp, FAST_BITS + 1)
        decreases 17 - k
      {
        k := k + 1;
      }
    }

    /** The search of `stbi__jpeg_huff_decode` through the lengths above nine bits, up to its assertion. */
    method SearchDecode(h: JHuffman, ghost lens: seq<nat>) returns (r: int, aborted: bool)
      requires codeBuffer < 0x1_0000_0000 && h.Describes(lens)
      requires h.fast[FastIndex(Buffer())] >= NOT_FAST
      modifies this`codeBuffer, this`codeBits
      ensures aborted <==> Aborts(h.View(), lens, old(Buffer()))
      ensures !aborted ==> (r, Buffer()) == DecodeStep(h.View(), h.values[..], old(Buffer()))
    {
      hide Shr, Shl, Low, KraftHolds, EndCode, FirstCode, Shorter, CodeOf, FastEntry, Sorted, Positive, SlowLength;
      hide JHuffman.FastDone, Spoilt, Asserted;
      h.ViewIsTable(lens);
      ShrShr(codeBuffer, 16, 7);
      ghost var window := Window(Buffer());
      var temp := Shr(codeBuffer, 16);
      var k := SearchLength(h, temp);
      if k == 17 {
        codeBits := codeBits - 16;
        return -1, false;
      }
      if k > codeBits {
        return -1, false;
      }
      TopShort(codeBuffer, k, 32);
      ShrShr(codeBuffer, 16, 16 - k);
      var i := Low(Shr(codeBuffer, 32 - k), k) + h.delta[k];
      if i < 0 || i >= 256 {
        return -1, false;
      }
      AssertedInBuffer(h.View(), lens, codeBuffer, i, 32);
      if Low(Shr(codeBuffer, 32 - h.size[i]), h.size[i]) != h.code[i] {
        return -1, true;
      }
      codeBits := codeBits - k;
      codeBuffer := Low(Shl(codeBuffer, k), 32);
      return h.values[i], false;
    }

    /** `stbi__jpeg_huff_decode` on the buffer as it stands. */
    method LookupDecode(h: JHuffman, ghost lens: seq<nat>) returns (r: int, aborted: bool)
      requires codeBuffer < 0x1_0000_0000 && h.Describes(lens)
      modifies this`codeBuffer, this`codeBits
      ensures aborted <==> Aborts(h.View(), lens, old(Buffer()))
      ensures !aborted ==> (r, Buffer()) == DecodeStep(h.View(), h.values[..], old(Buffer()))
    {
      hide Shr, Shl, Low, KraftHolds, SlowLength, Asserted;
      h.ViewIsTable(lens);
      Top(codeBuffer, 9);
      TopShort(codeBuffer, 9, 32);
      ShrShr(codeBuffer, 16, 7);
      var c := Low(Shr(codeBuffer, 32 - FAST_BITS), FAST_BITS);
      var k := h.fast[c];
      if k < NOT_FAST {
        assert FastEntry(lens, |lens|, c, k);
        var s := h.size[k];
        if s > codeBits {
          return -1, false;
        }
        codeBuffer := Low(Shl(codeBuffer, s), 32);
        codeBits := codeBits - s;
        return h.values[k], false;
      }
      r, aborted := SearchDecode(h, lens);
    }

    /** A refill when there are fewer than sixteen bits. */
    method Refill()
      requires Valid()
      modifies this`next, this`nomore, this`marker, this`codeBuffer, this`codeBits
      ensures Valid() && Here() == Refilled(|Segment()|, Ends(), old(Here()), 16)
      ensures codeBuffer < 0x1_0000_0000 && Window(Buffer()) == SegBits(Segment(), pos, 16)
    {
      hide SegBits, Shl, Standing;
      StandingValid(data, next, Here());
      if codeBits < 16 {
        GrowBuffer();
      }
      ShortWhen(|Segment()|, Ends(), old(Here()), 16, 16);
      BufferIsWord(Segment(), pos, codeBits);
      BufferWindow(Segment(), pos, codeBits, 16);
    }

    /**
     `stbi__jpeg_huff_decode`: the value of the symbol whose codeword is next in the
     segment.  It fails where there is none, and on the one call whose refill meets the
     marker with fewer bits to come than the codeword has; later calls are given zeros.
     A flagged symbol is taken for one of ten bits, and mostly fails the assertion.
     */
    method HuffDecode(h: JHuffman, ghost lens: seq<nat>) returns (r: int, aborted: bool, ghost sym: int)
      requires Valid() && h.Describes(lens)
      modifies this`next, this`nomore, this`marker, this`codeBuffer, this`codeBits, this`pos
      ensures if sym < 0 then NoCodewordAt(lens, Segment(), old(pos)) else CodewordAt(lens, sym, Segment(), old(pos))
      ensures aborted <==>
        && sym >= 0 && Flagged(lens, sym)
        && !old(Here()).Short(|Segment()|, Ends(), 10) && !LastTen(lens, Segment(), old(pos))
      ensures if sym < 0 then r == -1 else sym < |lens| <= 256
      ensures sym == Decode(lens, SegBits(Segment(), old(pos), 16), 16)
      ensures sym >= 0 && !aborted ==> Valid() && var n := BitsUsed(lens, sym);
        && (r == -1 <==> old(Here()).Short(|Segment()|, Ends(), n))
        && (r != -1 ==> r == h.values[sym])
        && Here() == Refilled(|Segment()|, Ends(), old(Here()), 16).Take(if r == -1 then 0 else n)
    {
      hide SegBits, Shl, Shr, Low, Pow2, CodewordAt, NoCodewordAt, JHuffman.Describes, Standing, DecodeStep,
        Aborts, EndCode;
      ghost var start, from := Here(), pos;
      StandingValid(data, next, start);
      Refill();
      ghost var c, before := Here(), Buffer();
      SymbolOfWindow(h, lens, Segment(), from, before);
      sym := Decode(lens, SegBits(Segment(), from, 16), 16);
      ghost var t, values := h.View(), h.values[..];
      r, aborted := LookupDecode(h, lens);
      assert !aborted ==> (r, Buffer()) == DecodeStep(t, values, before);
      if sym >= 0 && !aborted {
        ghost var n := BitsUsed(lens, sym);
        ShortWhen(|Segment()|, Ends(), start, 16, n);
        if r != -1 {
          BufferConsume(Segment(), pos, before.n, n);
          TakeStands(data, next, c, n);
          pos := pos + n;
        }
      }
    }

    /** `code_buffer <<= n; code_bits -= n`. */
    method Drop(n: nat)
      requires Valid() && n <= codeBits
      modifies this`codeBuffer, this`codeBits, this`pos
      ensures Valid() && Here() == old(Here()).Take(n)
    {
      hide SegBits, Shl, Low, Standing;
      StandingValid(data, next, Here());
      BufferConsume(Segment(), pos, codeBits, n);
      TakeStands(data, next, Here(), n);
      codeBuffer := Low(Shl(codeBuffer, n), 32);
      codeBits := codeBits - n;
      pos := pos + n;
    }

    /**
     `stbi__extend_receive`: the next `n` bits of the segment with their sign extended, or
     zero, taking nothing, on the one call whose refill meets the marker with fewer to come.
     */
    method ExtendReceive(n: nat) returns (r: int)
      requires Valid() && 1 <= n <= 15
      modifies this`next, this`nomore, this`marker, this`codeBuffer, this`codeBits, this`pos
      ensures Valid()
      ensures var f := Refilled(|Segment()|, Ends(), old(Here()), n);
        if old(Here()).Short(|Segment()|, Ends(), n) then r == 0 && Here() == f
        else r == Extend(SegBits(Segment(), old(pos), n), n) && Here() == f.Take(n)
    {
      hide SegBits, Shl, Shr, Low, Pow2, Standing, Extend, Lrot;
      StandingValid(data, next, Here());
      if codeBits < n {
        GrowBuffer();
      }
      ShortWhen(|Segment()|, Ends(), old(Here()), n, n);
      if codeBits < n {
        return 0;
      }
      TakeStands(data, next, Here(), n);
      BufferIsWord(Segment(), pos, codeBits);
      Pow2ThirtyTwo();
      BufferWindow(Segment(), pos, codeBits, n);
      BufferConsume(Segment(), pos, codeBits, n);
      ExtendStepCorrect(Buffer(), n);
      var sgn := Shr(codeBuffer, 31);
      var k := Lrot(codeBuffer, n);
      codeBuffer := k - Low(k, n);
      k := Low(k, n);
      codeBits := codeBits - n;
      pos := pos + n;
      r := k + if sgn == 1 then 0 else Bias(n);
    }
  }

  lemma AppendTop(u: seq<Byte>, p: nat, n: nat, b: Byte, w: nat)
    requires n + 8 <= w && SegBits(u, p + n, 8) == b
    ensures BitOr(Shl(SegBits(u, p, n), w - n), Shl(b, w - 8 - n)) == Shl(SegBits(u, p, n + 8), w - 8 - n)
  {
    hide SegBits, Shl, Pow2, BitOr;
    SegSplit(u, p, n, 8);
    var v := SegBits(u, p, n);
    ShlPlus(Shl(v, 8), b, w - 8 - n);
    ShlShl(v, 8, w - 8 - n);
    ShlByte(0);
    ShlLess(b, 256, w - 8 - n);
    Pow2Add(8, w - 8 - n);
    BitOrHigh(v, Shl(b, w - 8 - n), w - n);
  }

  lemma TopShort(x: nat, k: nat, w: nat)
    requires k <= w && w == 32 && x < 0x1_0000_0000
    ensures Low(Shr(x, w - k), k) == Shr(x, w - k)
  {
    hide Shr, Low, Pow2;
    Pow2ThirtyTwo();
    TopBits(x, k, w);
    LowSmall(Shr(x, w - k), k);
  }

  /** The assertion of `stbi__jpeg_huff_decode` in terms of the whole buffer. */
  lemma AssertedInBuffer(t: Table, lens: seq<nat>, x: nat, i: nat, w: nat)
    requires TableFor(t, lens) && w == 32 && x < 0x1_0000_0000 && Shr(x, 16) < 0x10000
    requires Reached(t, Shr(x, 16)) && Lookup(t, Shr(x, 16)).0 == i
    ensures i < |lens| && t.size[i] == lens[i] <= 16
    ensures Asserted(t, lens, Shr(x, 16)) <==> Low(Shr(x, w - lens[i]), lens[i]) == CodeOf(lens, i)
  {
    hide Shr, Low, CodeOf, Lookup, KraftHolds, EndCode, FirstCode, Shorter, FastEntry, Reached;
    if Spoilt(lens, Shr(x, 16)) {
      SpoiltAssertion(t, lens, Shr(x, 16));
      SpoiltReached(t, lens, Shr(x, 16));
    } else {
      SoundAssertion(t, lens, Shr(x, 16));
    }
    assert t.size[..|lens|][i] == t.size[i];
    ShrShr(x, 16, 16 - lens[i]);
    TopShort(x, lens[i], w);
  }

  lemma SpoiltReached(t: Table, lens: seq<nat>, window: nat)
    requires t.Shape() && window < 0x10000 && |lens| == 256 && Reached(t, window)
    ensures 0 <= Lookup(t, window).0 < |lens|
  {}

  lemma BufferIsWord(u: seq<Byte>, p: nat, n: int)
    requires 0 <= n <= 32
    ensures Shl(SegBits(u, p, n), 32 - n) < 0x1_0000_0000
  {
    hide SegBits, Shl, Pow2;
    Pow2ThirtyTwo();
    ShlLess(SegBits(u, p, n), Pow2(n), 32 - n);
    Pow2Add(n, 32 - n);
  }

  lemma BufferTop(u: seq<Byte>, p: nat, n: nat, k: nat, w: nat)
    requires k <= n <= w
    ensures Shr(Shl(SegBits(u, p, n), w - n), w - k) == SegBits(u, p, k)
  {
    hide SegBits, Shl, Shr, Low, Pow2;
    SegSplit(u, p, k, n - k);
    var a, b := SegBits(u, p, k), SegBits(u, p + k, n - k);
    ShlPlus(Shl(a, n - k), b, w - n);
    ShlShl(a, n - k, w - n);
    ShlLess(b, Pow2(n - k), w - n);
    Pow2Add(n - k, w - n);
    Compose(a, Shl(b, w - n), w - k);
  }

  lemma BufferPastEnd(u: seq<Byte>, p: nat, n: nat, k: nat, w: nat)
    requires n <= k <= w && p + n >= 8 * |u|
    ensures Shr(Shl(SegBits(u, p, n), w - n), w - k) == SegBits(u, p, k)
  {
    hide SegBits, Shl, Shr, Low, Pow2;
    var v := SegBits(u, p, n);
    SegSplit(u, p, n, k - n);
    SegZero(u, p + n, k - n);
    ShlShl(v, k - n, w - k);
    Pow2Positive(w - k);
    Compose(Shl(v, k - n), 0, w - k);
  }

  /** The top of the buffer is what comes next, even when only zeros are left to come. */
  lemma BufferWindow(u: seq<Byte>, p: nat, n: int, k: nat)
    requires 0 <= n <= 32 && k <= 32 && (k <= n || p + n >= 8 * |u|)
    ensures Shr(Shl(SegBits(u, p, n), 32 - n), 32 - k) == SegBits(u, p, k)
  {
    hide SegBits, Shl, Shr, Pow2;
    if k <= n {
      BufferTop(u, p, n, k, 32);
    } else {
      BufferPastEnd(u, p, n, k, 32);
    }
  }

  lemma BufferConsume(u: seq<Byte>, p: nat, n: int, s: nat)
    requires 0 <= n <= 32 && s <= n
    ensures Low(Shl(Shl(SegBits(u, p, n), 32 - n), s), 32) == Shl(SegBits(u, p + s, n - s), 32 - (n - s))
  {
    hide SegBits, Shl, Shr, Low, Pow2;
    BufferIsWord(u, p, n);
    Pow2ThirtyTwo();
    var x := Shl(SegBits(u, p, n), 32 - n);
    ShiftOut(x, s, 32);
    SegSplit(u, p, s, n - s);
    var a, b := SegBits(u, p, s), SegBits(u, p + s, n - s);
    ShlPlus(Shl(a, n - s), b, 32 - n);
    ShlShl(a, n - s, 32 - n);
    ShlLess(b, Pow2(n - s), 32 - n);
    Pow2Add(n - s, 32 - n);
    Compose(a, Shl(b, 32 - n), 32 - s);
    ShlShl(b, 32 - n, s);
  }

  /** The assertion is reached with enough bits, and fails. */
  ghost predicate Aborts(t: Table, lens: seq<nat>, b: Buf)
    requires t.Shape() && b.bits < 0x1_0000_0000
  {
    Reached(t, Window(b)) && Lookup(t, Window(b)).1 <= b.n && !Asserted(t, lens, Window(b))
  }

  /** A symbol whose short code the table cannot hold, because its index is the flag value. */
  ghost predicate Flagged(lens: seq<nat>, sym: nat) {
    sym == NOT_FAST && sym < |lens| && lens[sym] <= FAST_BITS
  }

  function BitsUsed(lens: seq<nat>, sym: nat): nat
    requires sym < |lens|
  {
    if sym == NOT_FAST && lens[sym] <= FAST_BITS then 10 else lens[sym]
  }

  /** The next ten bits are the last that begin with a codeword. */
  ghost predicate LastTen(lens: seq<nat>, u: seq<Byte>, p: nat) {
    SegBits(u, p, 10) == EndCode(lens, 10) - 1
  }

  /** Symbol `sym` decoded from the buffer, if it has the bits. */
  function Decoded(lens: seq<nat>, values: seq<nat>, sym: nat, b: Buf): (int, Buf)
    requires sym < |lens| && sym < |values|
  {
    var fail: int := -1;
    if BitsUsed(lens, sym) <= b.n then (values[sym], Consume(b, BitsUsed(lens, sym))) else (fail, b)
  }

  /** On a spoilt window the lookup takes ten bits, and gives symbol 255 only for the last ten. */
  lemma SpoiltStep(t: Table, lens: seq<nat>, values: seq<nat>, b: Buf)
    requires TableFor(t, lens) && |values| == 256 && b.bits < 0x1_0000_0000 && Spoilt(lens, Window(b))
    ensures |lens| == 256 && lens[NOT_FAST] <= FAST_BITS
    ensures Aborts(t, lens, b) <==> 10 <= b.n && Shr(Window(b), 6) != EndCode(lens, 10) - 1
    ensures !Aborts(t, lens, b) ==> DecodeStep(t, values, b) == Decoded(lens, values, NOT_FAST, b)
  {
    hide Shr, Matches, Lookup, KraftHolds, EndCode, FirstCode, Shorter, FastEntry, Consume, Asserted;
    SpoiltAssertion(t, lens, Window(b));
  }

  /** On any other window the lookup gives the symbol whose code is next. */
  lemma SoundStep(t: Table, lens: seq<nat>, values: seq<nat>, b: Buf)
    requires TableFor(t, lens) && |values| == 256 && b.bits < 0x1_0000_0000 && !Spoilt(lens, Window(b)) && 0 <= b.n
    ensures !Aborts(t, lens, b)
    ensures var sym := Decode(lens, Window(b), 16);
      if sym < 0 then DecodeStep(t, values, b).0 == -1
      else
        && sym < |lens| && !Flagged(lens, sym) && lens[sym] <= 16
        && DecodeStep(t, values, b) == Decoded(lens, values, sym, b)
  {
    hide Shr, CodeOf, Lookup, Reached, KraftHolds, EndCode, FirstCode, Shorter, FastEntry, Consume, Asserted;
    LookupCorrect(t, lens, Window(b));
    if Reached(t, Window(b)) {
      SoundAssertion(t, lens, Window(b));
    }
  }

  /** What the tables make of a window, in terms of the segment that it shows. */
  lemma SymbolOfWindow(h: JHuffman, lens: seq<nat>, u: seq<Byte>, p: nat, b: Buf)
    requires h.Describes(lens) && b.bits < 0x1_0000_0000 && 0 <= b.n && Window(b) == SegBits(u, p, 16)
    ensures h.Shape() && h.View().Shape()
    ensures var sym, t := Decode(lens, SegBits(u, p, 16), 16), h.View();
      if sym < 0 then
        NoCodewordAt(lens, u, p) && DecodeStep(t, h.values[..], b).0 == -1 && !Aborts(t, lens, b)
      else
        && CodewordAt(lens, sym, u, p) && sym < |lens| <= 256 && BitsUsed(lens, sym) <= 16
        && (Aborts(t, lens, b) <==> Flagged(lens, sym) && 10 <= b.n && !LastTen(lens, u, p))
        && (!Aborts(t, lens, b) ==> DecodeStep(t, h.values[..], b) == Decoded(lens, h.values[..], sym, b))
  {
    hide SegBits, Shr, Pow2, Lookup, EndCode, FirstCode, CodeOf, DecodeStep, Aborts, Decoded, KraftHolds,
      FastEntry, Shorter;
    h.ViewIsTable(lens);
    SegPrefix(u, p, 10, 16);
    CodewordsAreMatches(lens, u, p, 16);
    if Spoilt(lens, Window(b)) {
      SpoiltStep(h.View(), lens, h.values[..], b);
    } else {
      SoundStep(h.View(), lens, h.values[..], b);
    }
  }

  /** `stbi__build_fast_ac`. */
  method BuildFastAc(fastAc: array<int>, h: JHuffman)
    requires fastAc.Length == FAST_SIZE && h.Shape() && fastAc != h.delta
    requires h.View().Shape()
    modifies fastAc
    ensures forall i: nat :: i < FAST_SIZE ==> fastAc[i] == FastAcEntry(h.View(), h.values[..], i)
  {
    hide Shl, Shr, Low, Pow2;
    ghost var t, values := h.View(), h.values[..];
    var i := 0;
    while i < FAST_SIZE
      invariant 0 <= i <= FAST_SIZE && h.View() == t && h.values[..] == values
      invariant forall k: nat :: k < i ==> fastAc[k] == FastAcEntry(t, values, k)
    {
      var f := h.fast[i];
      fastAc[i] := 0;
      if f < NOT_FAST {
        var rs := h.values[f];
        var run := rs / 16 % 16;
        var magbits := rs % 16;
        var len := h.size[f];
        if magbits != 0 && len + magbits <= FAST_BITS {
          var k: int := Shr(Low(Shl(i, len), FAST_BITS), FAST_BITS - magbits);
          var m := Shl(1, magbits - 1);
          if k < m {
            k := k - Pow2(magbits) + 1;
          }
          if -128 <= k <= 127 {
            fastAc[i] := k * 256 + run * 16 + (len + magbits);
          }
        }
      }
      i := i + 1;
    }
  }
}
