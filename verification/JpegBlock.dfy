/**
 The AC coefficients of a block in `stbi__jpeg_decode_block`: a loop that takes a symbol
 and a magnitude at a time, from the combined table when it has an entry, else by Huffman
 decoding and sign extension.

 `AcRun` is that loop as a function of the segment and of how far it has been read, with
 the combined table or without.
 */
module JpegBlock {
  import opened Bits
  import opened CanonicalCode
  import opened JpegHuffman
  import opened JpegSegment
  import opened JpegReader

  /** The rows of `stbi__jpeg_dezigzag`. */
  function DezigzagRow(i: nat): (row: seq<nat>)
    ensures |row| == 8 && forall j :: 0 <= j < 8 ==> row[j] < 64
  {
    if i == 0 then [0, 1, 8, 16, 9, 2, 3, 10]
    else if i == 1 then [17, 24, 32, 25, 18, 11, 4, 5]
    else if i == 2 then [12, 19, 26, 33, 40, 48, 41, 34]
    else if i == 3 then [27, 20, 13, 6, 7, 14, 21, 28]
    else if i == 4 then [35, 42, 49, 56, 57, 50, 43, 36]
    else if i == 5 then [29, 22, 15, 23, 30, 37, 44, 51]
    else if i == 6 then [58, 59, 52, 45, 38, 31, 39, 46]
    else if i == 7 then [53, 60, 61, 54, 47, 55, 62, 63]
    else [63, 63, 63, 63, 63, 63, 63, 63]
  }

  /** `stbi__jpeg_dezigzag`: 64 places and fifteen more for runs past the end of a block. */
  function Dezigzag(k: nat): (zig: nat)
    requires k < 79
    ensures zig < 64
  {
    DezigzagRow(k / 8)[k % 8]
  }

  /** The rows of figure A.6: the place of each coefficient in the zigzag order. */
  function ZigzagRow(i: nat): (row: seq<nat>)
    ensures |row| == 8
  {
    if i == 0 then [0, 1, 5, 6, 14, 15, 27, 28]
    else if i == 1 then [2, 4, 7, 13, 16, 26, 29, 42]
    else if i == 2 then [3, 8, 12, 17, 25, 30, 41, 43]
    else if i == 3 then [9, 11, 18, 24, 31, 40, 44, 53]
    else if i == 4 then [10, 19, 23, 32, 39, 45, 52, 54]
    else if i == 5 then [20, 22, 33, 38, 46, 51, 55, 60]
    else if i == 6 then [21, 34, 37, 47, 50, 56, 59, 61]
    else [35, 36, 48, 49, 57, 58, 62, 63]
  }

  /** The first 64 places are the inverse of the figure, so each is used once. */
  lemma DezigzagInverse(k: nat)
    requires k < 64
    ensures ZigzagRow(Dezigzag(k) / 8)[Dezigzag(k) % 8] == k
  {
    var i, j := k / 8, k % 8;
    if i < 4 {
      assert i == 0 || i == 1 || i == 2 || i == 3;
    } else {
      assert i == 4 || i == 5 || i == 6 || i == 7;
    }
    assert j == 0 || j == 1 || j == 2 || j == 3 || j == 4 || j == 5 || j == 6 || j == 7;
  }

  /** `(short) v`. */
  function ToShort(v: int): (r: int)
    ensures -0x8000 <= r < 0x8000 && (r - v) % 0x1_0000 == 0
  {
    (v + 0x8000) % 0x1_0000 - 0x8000
  }

  /** A table with its values, the quantization steps, and a segment. */
  datatype Coding = Coding(t: Table, lens: seq<nat>, values: seq<nat>, dequant: seq<nat>, u: seq<Byte>, marked: bool) {
    ghost predicate Valid() {
      TableFor(t, lens) && |values| == 256 && (forall v :: v in values ==> v < 256) && |dequant| == 64
    }

    /** The symbol whose code is next, or -1. */
    ghost function Symbol(p: nat): (r: int)
      requires Valid()
      ensures r < |lens| <= 256
      ensures r >= 0 ==> 0 < lens[r] <= 16 && BitsUsed(lens, r) <= 16 && values[r] < 256
    {
      var r := Decode(lens, SegBits(u, p, 16), 16);
      assert r >= 0 ==> values[r] in values;
      r
    }

    /** A refill when there are fewer than `n` bits. */
    function Refill(c: Cursor, n: nat): Cursor
      requires n <= 25
    {
      Refilled(|u|, marked, c, n)
    }

    /** The entry of the combined table for the next nine bits. */
    ghost function Entry(p: nat): int
      requires Valid()
    {
      Pow2Nine();
      FastAcEntry(t, values, SegBits(u, p, 9))
    }
  }

  /** What one round of the loop comes to. */
  datatype Step =
    | Bad
    | Abort
    | End(c: Cursor)
    | Skip(c: Cursor)
    | Coef(run: nat, v: int, c: Cursor)

  /** A code with its magnitude: the second branch. */
  ghost function SlowStep(x: Coding, c: Cursor): (s: Step)
    requires x.Valid()
    ensures s.Coef? ==> s.run < 16
  {
    var f := x.Refill(x.Refill(c, 16), 16);
    var sym := x.Symbol(c.pos);
    if sym < 0 then Bad
    else if Flagged(x.lens, sym) && !LastTen(x.lens, x.u, c.pos) then Abort
    else
      var q, rs := f.Take(BitsUsed(x.lens, sym)), x.values[sym];
      if rs % 16 == 0 then if rs == 0xF0 then Skip(q) else End(q)
      else Magnitude(x, q, rs / 16, rs % 16)
  }

  /** The magnitude after a code, zero when it is cut short. */
  function Magnitude(x: Coding, q: Cursor, run: nat, n: nat): Step
    requires 1 <= n <= 15
  {
    var g := x.Refill(q, n);
    if q.Short(|x.u|, x.marked, n) then Coef(run, 0, g)
    else Coef(run, Extend(SegBits(x.u, q.pos, n), n), g.Take(n))
  }

  /** The combined table where it has an entry: the first branch. */
  ghost function FastStep(x: Coding, c: Cursor): (s: Step)
    requires x.Valid()
    ensures s.Coef? ==> s.run < 16
  {
    var f, e := x.Refill(c, 16), x.Entry(c.pos);
    if e == 0 then SlowStep(x, c)
    else if e % 16 > f.bits then Bad
    else Coef(e / 16 % 16, e / 256, f.Take(e % 16))
  }

  datatype AcResult = AcBad | AcAbort | AcDone(data: seq<int>, c: Cursor)

  /** A coefficient in its place. */
  function Place(x: Coding, data: seq<int>, k: nat, v: int): (r: seq<int>)
    requires |x.dequant| == |data| == 64 && k < 79
    ensures |r| == 64
  {
    var zig := Dezigzag(k);
    data[zig := ToShort(v * x.dequant[zig])]
  }

  /** The loop from coefficient `k` on, with the combined table or without. */
  ghost function AcRun(fast: bool, x: Coding, k: nat, data: seq<int>, c: Cursor): AcResult
    requires x.Valid() && |data| == 64
    decreases 64 - k
  {
    if k >= 64 then AcDone(data, c)
    else
      match (if fast then FastStep(x, c) else SlowStep(x, c))
      case Bad => AcBad
      case Abort => AcAbort
      case End(q) => AcDone(data, q)
      case Skip(q) => AcRun(fast, x, k + 16, data, q)
      case Coef(run, v, q) => AcRun(fast, x, k + run + 1, Place(x, data, k + run, v), q)
  }

  // ---------------------------------------------------- the combined table and the code

  /** A buffer full of the segment's bits. */
  function FullBuffer(u: seq<Byte>, p: nat): (b: Buf)
    ensures b.n == 32 && b.bits < 0x1_0000_0000
  {
    BufferIsWord(u, p, 32);
    ShlStep(SegBits(u, p, 32), 0);
    Buf(SegBits(u, p, 32), 32)
  }

  lemma FullBufferShows(u: seq<Byte>, p: nat)
    ensures FastIndex(FullBuffer(u, p)) == SegBits(u, p, 9) && Window(FullBuffer(u, p)) == SegBits(u, p, 16)
  {
    hide SegBits, Shr;
    SegPrefix(u, p, 9, 32);
    SegPrefix(u, p, 16, 32);
  }

  /** After `l` bits of it the next `m` are those of the segment. */
  lemma FullBufferAfter(u: seq<Byte>, p: nat, l: nat, m: nat)
    requires l <= 16 && 1 <= m <= 15
    ensures var b := Consume(FullBuffer(u, p), l);
      Word(b) && Shr(b.bits, 32 - m) == SegBits(u, p + l, m)
  {
    hide SegBits, Shr, Shl, Low, Pow2;
    ShlStep(SegBits(u, p, 32), 0);
    BufferConsume(u, p, 32, l);
    BufferTop(u, p + l, 32 - l, m, 32);
  }

  /** A spoilt window has no entry. */
  lemma EntryIsSound(t: Table, lens: seq<nat>, values: seq<nat>, window: nat)
    requires TableFor(t, lens) && |values| == 256 && window < 0x10000 && Spoilt(lens, window)
    ensures Shr(window, 7) < FAST_SIZE && FastAcEntry(t, values, Shr(window, 7)) == 0
  {
    hide Shr, Spoilt, KraftHolds, EndCode, FirstCode, Shorter, FastEntry;
    SpoiltIndex(t, lens, window);
  }

  /** An entry of the combined table is the next code with its magnitude. */
  lemma EntryInBuffer(t: Table, lens: seq<nat>, values: seq<nat>, u: seq<Byte>, p: nat, e: int)
    requires TableFor(t, lens) && |values| == 256 && (forall v :: v in values ==> v < 256)
    requires SegBits(u, p, 9) < FAST_SIZE && e == FastAcEntry(t, values, SegBits(u, p, 9)) != 0
    requires SegBits(u, p, 16) < 0x10000
    ensures var sym := Decode(lens, SegBits(u, p, 16), 16);
      && 0 <= sym < |lens| <= 256 && !Flagged(lens, sym) && 0 < lens[sym] <= 16
      && var rs := values[sym];
        && 1 <= rs % 16 && e % 16 == lens[sym] + rs % 16 && e / 16 % 16 == rs / 16
        && e / 256 == Extend(SegBits(u, p + lens[sym], rs % 16), rs % 16)
  {
    hide SegBits, Shr, Low, Shl, TableFor, FastAcEntry, FullBuffer, Extend, ExtendStep, DecodeStep, Matches;
    var b := FullBuffer(u, p);
    FullBufferShows(u, p);
    FastAcAgrees(t, lens, values, b);
    ShrShr(b.bits, 16, 7);
    if Spoilt(lens, Window(b)) {
      EntryIsSound(t, lens, values, Window(b));
    }
    SoundStep(t, lens, values, b);
    var sym := Decode(lens, Window(b), 16);
    MatchLength(lens, sym, Window(b), 16);
    TableSize(t, lens);
    var l, m := lens[sym], values[sym] % 16;
    FullBufferAfter(u, p, l, m);
    ExtendStepCorrect(Consume(b, l), m);
  }

  lemma TableSize(t: Table, lens: seq<nat>)
    requires TableFor(t, lens)
    ensures |lens| <= 256
  {}

  lemma EntryMeans(x: Coding, p: nat)
    requires x.Valid() && x.Entry(p) != 0
    ensures var e, sym := x.Entry(p), x.Symbol(p);
      && sym >= 0 && !Flagged(x.lens, sym)
      && var rs := x.values[sym];
        && 1 <= rs % 16 && e % 16 == x.lens[sym] + rs % 16 && e / 16 % 16 == rs / 16
        && e / 256 == Extend(SegBits(x.u, p + x.lens[sym], rs % 16), rs % 16)
  {
    hide SegBits, TableFor, FastAcEntry, Extend, Pow2;
    Pow2Nine();
    Pow2Sixteen();
    EntryInBuffer(x.t, x.lens, x.values, x.u, p, x.Entry(p));
  }

  /** What an entry asks of the next symbol and its magnitude. */
  ghost predicate Combines(x: Coding, p: nat)
    requires x.Valid()
  {
    var sym := x.Symbol(p);
    && sym >= 0 && !Flagged(x.lens, sym)
    && var n := x.values[sym] % 16;
      && n != 0 && x.lens[sym] + n <= 9
      && -128 <= Extend(SegBits(x.u, p + x.lens[sym], n), n) <= 127
  }

  /** The symbol of a short code is in the fast table. */
  lemma FastHolds(t: Table, lens: seq<nat>, window: nat, sym: nat)
    requires TableFor(t, lens) && window < 0x10000 && Matches(lens, sym, window, 16)
    requires lens[sym] <= FAST_BITS && !Flagged(lens, sym)
    ensures Shr(window, 7) < FAST_SIZE && t.fast[Shr(window, 7)] == sym < NOT_FAST
    ensures t.size[sym] == lens[sym]
  {
    hide Shr, Shl, CodeOf, KraftHolds, EndCode, FirstCode, Shorter;
    WindowIndex(window);
    var i := Shr(window, 7);
    FastWindow(lens, sym, window);
    assert FastEntry(lens, |lens|, i, t.fast[i]);
    MatchUnique(lens, t.fast[i], sym, i, FAST_BITS);
    assert t.size[..|lens|][sym] == t.size[sym];
  }

  lemma EntryFor(t: Table, lens: seq<nat>, values: seq<nat>, u: seq<Byte>, p: nat, sym: nat)
    requires TableFor(t, lens) && |values| == 256 && SegBits(u, p, 9) < FAST_SIZE && SegBits(u, p, 16) < 0x10000
    requires Matches(lens, sym, SegBits(u, p, 16), 16) && sym < |lens| <= 256 && !Flagged(lens, sym) && values[sym] < 256
    requires values[sym] % 16 != 0 && lens[sym] + values[sym] % 16 <= 9
    requires -128 <= Extend(SegBits(u, p + lens[sym], values[sym] % 16), values[sym] % 16) <= 127
    ensures t.Shape() && FastAcEntry(t, values, SegBits(u, p, 9)) != 0
  {
    hide SegBits, Shr, Low, Shl, FastAcEntry, FullBuffer, Extend, Matches, Pow2, FastEntry, EndCode, FirstCode, Shorter,
      KraftHolds;
    var l, m := lens[sym], values[sym] % 16;
    FastHolds(t, lens, SegBits(u, p, 16), sym);
    SegPrefix(u, p, 9, 16);
    var x := SegBits(u, p, 32);
    BufferIsWord(u, p, 32);
    ShlStep(x, 0);
    Pow2ThirtyTwo();
    MagnitudeBits(x, l, m, 32);
    SegPrefix(u, p, 9, 32);
    FullBufferAfter(u, p, l, m);
    FullBufferIs(u, p);
    EntryThere(t, values, SegBits(u, p, 9), sym);
  }

  lemma FullBufferIs(u: seq<Byte>, p: nat)
    ensures FullBuffer(u, p) == Buf(SegBits(u, p, 32), 32)
  {}

  /** The combined table has an entry exactly for what it can combine. */
  lemma EntryExactly(x: Coding, p: nat)
    requires x.Valid()
    ensures x.Entry(p) != 0 <==> Combines(x, p)
  {
    hide SegBits, TableFor, FastAcEntry, Extend, Pow2;
    Pow2Nine();
    Pow2Sixteen();
    if x.Entry(p) != 0 {
      EntryMeans(x, p);
      EntryBounds(x.t, x.lens, x.values, SegBits(x.u, p, 9));
    } else if Combines(x, p) {
      EntryFor(x.t, x.lens, x.values, x.u, p, x.Symbol(p));
    }
  }

  lemma EntryBounds(t: Table, lens: seq<nat>, values: seq<nat>, i: nat)
    requires TableFor(t, lens) && |values| == 256 && (forall v :: v in values ==> v < 256) && i < FAST_SIZE
    requires FastAcEntry(t, values, i) != 0
    ensures FastAcEntry(t, values, i) % 16 <= 9 && -128 <= FastAcEntry(t, values, i) / 256 <= 127
  {
    hide TableFor, FastAcEntry, Extend, Shl, Shr, Low, Pow2;
    FastSymbol(t, lens, i);
    EntryIs(t, values, i);
  }

  // ---------------------------------------------------- with the table and without it

  /** Readers that cannot be told apart: after the marker it does not matter how many zeros are buffered. */
  predicate Alike(c: Cursor, d: Cursor) {
    c.pos == d.pos && c.met == d.met && (c.met || c.bits == d.bits)
  }

  ghost predicate StepsAlike(s: Step, t: Step) {
    match s
    case Bad => t.Bad?
    case Abort => t.Abort?
    case End(c) => t.End? && Alike(c, t.c)
    case Skip(c) => t.Skip? && Alike(c, t.c)
    case Coef(run, v, c) => t.Coef? && run == t.run && v == t.v && Alike(c, t.c)
  }

  ghost predicate ResultsAlike(s: AcResult, t: AcResult) {
    match s
    case AcBad => t.AcBad?
    case AcAbort => t.AcAbort?
    case AcDone(data, c) => t.AcDone? && data == t.data && Alike(c, t.c)
  }

  /** After the refill of a round, no code is short of bits: that refill met the marker if any does. */
  lemma RoundRefill(x: Coding, c: Cursor, l: nat)
    requires c.Valid(|x.u|, x.marked) && l <= 16
    ensures var f := x.Refill(x.Refill(c, 16), 16);
      && f.Valid(|x.u|, x.marked) && f.pos == c.pos && f.bits >= 16 && !f.Short(|x.u|, x.marked, 0)
      && !x.Refill(c, 16).Short(|x.u|, x.marked, l)
      && f.Take(l).Valid(|x.u|, x.marked)
      && (c.met ==> f.met) && Alike(x.Refill(c, 16), f)
  {
    ShortWhen(|x.u|, x.marked, c, 16, l);
    ShortWhen(|x.u|, x.marked, c, 16, 16);
    ShortWhen(|x.u|, x.marked, x.Refill(c, 16), 16, l);
    ShortWhen(|x.u|, x.marked, x.Refill(c, 16), 16, 16);
    ShortWhen(|x.u|, x.marked, x.Refill(c, 16), 16, 0);
  }

  lemma AlikeRefill(x: Coding, c: Cursor, d: Cursor, n: nat)
    requires c.Valid(|x.u|, x.marked) && d.Valid(|x.u|, x.marked) && Alike(c, d) && n <= 25
    ensures Alike(x.Refill(c, n), x.Refill(d, n))
  {}

  lemma AlikeMagnitude(x: Coding, c: Cursor, d: Cursor, run: nat, n: nat)
    requires c.Valid(|x.u|, x.marked) && d.Valid(|x.u|, x.marked) && Alike(c, d) && 1 <= n <= 15
    ensures StepsAlike(Magnitude(x, c, run, n), Magnitude(x, d, run, n))
    ensures Magnitude(x, c, run, n).c.Valid(|x.u|, x.marked) && Magnitude(x, c, run, n).c.pos >= c.pos
  {
    hide SegBits, Extend, Cursor.Valid;
    AlikeRefill(x, c, d, n);
    ShortWhen(|x.u|, x.marked, c, n, n);
    ShortWhen(|x.u|, x.marked, c, n, 0);
  }

  /** Where a step leads. */
  ghost predicate Onward(x: Coding, s: Step, c: Cursor) {
    s.End? || s.Skip? || s.Coef? ==> s.c.Valid(|x.u|, x.marked) && s.c.pos >= c.pos
  }

  lemma SlowStepAlike(x: Coding, c: Cursor, d: Cursor)
    requires x.Valid() && c.Valid(|x.u|, x.marked) && d.Valid(|x.u|, x.marked) && Alike(c, d)
    ensures StepsAlike(SlowStep(x, c), SlowStep(x, d)) && Onward(x, SlowStep(x, c), c)
  {
    hide SegBits, Extend, Cursor.Valid, TableFor, Magnitude, LastTen, Coding.Refill;
    var sym := x.Symbol(c.pos);
    if sym >= 0 {
      var n, rs := BitsUsed(x.lens, sym), x.values[sym];
      RoundRefill(x, c, n);
      RoundRefill(x, d, n);
      var f, g := x.Refill(x.Refill(c, 16), 16), x.Refill(x.Refill(d, 16), 16);
      AlikeTwice(x, c, d);
      assert Alike(f.Take(n), g.Take(n));
      if rs % 16 != 0 {
        AlikeMagnitude(x, f.Take(n), g.Take(n), rs / 16, rs % 16);
      }
    }
  }

  lemma AlikeTwice(x: Coding, c: Cursor, d: Cursor)
    requires c.Valid(|x.u|, x.marked) && d.Valid(|x.u|, x.marked) && Alike(c, d)
    ensures Alike(x.Refill(x.Refill(c, 16), 16), x.Refill(x.Refill(d, 16), 16))
  {
    hide Cursor.Valid, Coding.Refill;
    ShortWhen(|x.u|, x.marked, c, 16, 0);
    ShortWhen(|x.u|, x.marked, d, 16, 0);
    RefillValid(x, c);
    RefillValid(x, d);
    AlikeRefill(x, c, d, 16);
    AlikeRefill(x, x.Refill(c, 16), x.Refill(d, 16), 16);
  }

  lemma RefillValid(x: Coding, c: Cursor)
    requires c.Valid(|x.u|, x.marked)
    ensures x.Refill(c, 16).Valid(|x.u|, x.marked) && x.Refill(c, 16).pos == c.pos
  {
    ShortWhen(|x.u|, x.marked, c, 16, 0);
  }

  /** The magnitude of a code with at most fifteen bits in all is never cut short. */
  lemma WholeMagnitude(x: Coding, c: Cursor, l: nat, run: nat, n: nat)
    requires c.Valid(|x.u|, x.marked) && 1 <= n && l + n <= 15
    ensures var f := x.Refill(x.Refill(c, 16), 16);
      Magnitude(x, f.Take(l), run, n) == Coef(run, Extend(SegBits(x.u, c.pos + l, n), n), f.Take(l + n))
  {
    hide SegBits, Extend, Cursor.Valid;
    RoundRefill(x, c, l);
    var f := x.Refill(x.Refill(c, 16), 16);
    ShortWhen(|x.u|, x.marked, f.Take(l), n, n);
  }

  /**
   An entry of the combined table gives what decoding and receiving would, unless the
   refill of this very round met the marker with fewer bits to come than the entry uses.
   Then the table path fails, and decoding goes on with made up zeros.
   */
  lemma FastStepExact(x: Coding, c: Cursor)
    requires x.Valid() && c.Valid(|x.u|, x.marked) && x.Entry(c.pos) != 0
    ensures SlowStep(x, c).Coef? && SlowStep(x, c).c.pos == c.pos + x.Entry(c.pos) % 16
    ensures FastStep(x, c).Bad? <==> x.Entry(c.pos) % 16 > x.Refill(c, 16).bits
    ensures FastStep(x, c).Bad? <==> c.Short(|x.u|, x.marked, x.Entry(c.pos) % 16)
    ensures StepsAlike(FastStep(x, c), SlowStep(x, c)) <==> x.Entry(c.pos) % 16 <= x.Refill(c, 16).bits
  {
    hide SegBits, Extend, Cursor.Valid, TableFor, Magnitude, Coding.Refill, Coding.Entry, LastTen, Coding.Symbol;
    var e, sym := x.Entry(c.pos), x.Symbol(c.pos);
    EntryMeans(x, c.pos);
    EntryWhole(x, c);
    RefillShort(x, c, e % 16);
    RoundRefill(x, c, 0);
  }

  lemma RefillShort(x: Coding, c: Cursor, l: nat)
    requires c.Valid(|x.u|, x.marked) && l <= 16
    ensures x.Refill(c, 16).bits < l <==> c.Short(|x.u|, x.marked, l)
    ensures l <= x.Refill(c, 16).bits ==> x.Refill(c, 16).Take(l).Valid(|x.u|, x.marked)
  {
    ShortWhen(|x.u|, x.marked, c, 16, l);
  }

  lemma EntryWhole(x: Coding, c: Cursor)
    requires x.Valid() && c.Valid(|x.u|, x.marked) && x.Entry(c.pos) != 0
    ensures var e := x.Entry(c.pos);
      SlowStep(x, c) == Coef(e / 16 % 16, e / 256, x.Refill(x.Refill(c, 16), 16).Take(e % 16))
  {
    hide SegBits, Extend, Cursor.Valid, TableFor, Magnitude, Coding.Refill, Coding.Entry, LastTen;
    EntryMeans(x, c.pos);
    var sym := x.Symbol(c.pos);
    var rs := x.values[sym];
    WholeMagnitude(x, c, x.lens[sym], rs / 16, rs % 16);
  }

  lemma FastStepAlike(x: Coding, c: Cursor, d: Cursor)
    requires x.Valid() && c.Valid(|x.u|, x.marked) && d.Valid(|x.u|, x.marked) && Alike(c, d)
    ensures Onward(x, SlowStep(x, d), d) && Onward(x, FastStep(x, c), c)
    ensures if !FastStep(x, c).Bad? then StepsAlike(FastStep(x, c), SlowStep(x, d))
      else SlowStep(x, d).Bad? || (SlowStep(x, d).Coef? && SlowStep(x, d).c.pos > 8 * |x.u|)
  {
    hide Cursor.Valid, TableFor, SlowStep, Coding.Refill, Coding.Entry;
    SlowStepAlike(x, c, d);
    SlowStepAlike(x, d, c);
    if x.Entry(c.pos) != 0 {
      FastStepExact(x, c);
      RefillShort(x, c, x.Entry(c.pos) % 16);
      RefillValid(x, c);
    }
  }

  /** Without the table, the loop ends no earlier than it is. */
  lemma {:induction false} RunForward(x: Coding, k: nat, data: seq<int>, c: Cursor)
    requires x.Valid() && |data| == 64 && c.Valid(|x.u|, x.marked)
    ensures AcRun(false, x, k, data, c).AcDone? ==> AcRun(false, x, k, data, c).c.pos >= c.pos
    decreases 64 - k
  {
    hide SlowStep, Place, Cursor.Valid, TableFor;
    if k < 64 {
      SlowStepAlike(x, c, c);
      match SlowStep(x, c) {
        case Skip(q) => RunForward(x, k + 16, data, q);
        case Coef(run, v, q) => RunForward(x, k + run + 1, Place(x, data, k + run, v), q);
        case _ =>
      }
    }
  }

  /**
   The loop with the combined table gives the coefficients that decoding code by code gives,
   if it does not fail; and it does not fail on a block that ends inside the segment.
   */
  lemma {:induction false} RunsAgree(x: Coding, k: nat, data: seq<int>, c: Cursor, d: Cursor)
    requires x.Valid() && |data| == 64 && c.Valid(|x.u|, x.marked) && d.Valid(|x.u|, x.marked) && Alike(c, d)
    ensures var fast, slow := AcRun(true, x, k, data, c), AcRun(false, x, k, data, d);
      && (!fast.AcBad? ==> ResultsAlike(fast, slow))
      && (slow.AcDone? && slow.c.pos <= 8 * |x.u| ==> ResultsAlike(fast, slow))
    decreases 64 - k
  {
    hide SlowStep, FastStep, Place, Cursor.Valid, TableFor;
    if k < 64 {
      FastStepAlike(x, c, d);
      match SlowStep(x, d) {
        case Skip(q) =>
          if FastStep(x, c).Skip? {
            RunsAgree(x, k + 16, data, FastStep(x, c).c, q);
          }
        case Coef(run, v, q) =>
          var after := Place(x, data, k + run, v);
          RunForward(x, k + run + 1, after, q);
          if FastStep(x, c).Coef? {
            RunsAgree(x, k + run + 1, after, FastStep(x, c).c, q);
          }
        case _ =>
      }
    }
  }

  // ------------------------------------------------------------------------ the loop

  /** The decoder's tables and segment. */
  ghost function CodingOf(j: JpegBits, h: JHuffman, lens: seq<nat>, dequant: seq<nat>): Coding
    reads h.fast, h.size, h.maxcode, h.delta, h.values
  {
    Coding(h.View(), lens, h.values[..], dequant, j.Segment(), j.Ends())
  }

  /** A step without the state it leaves. */
  datatype Round = Fail | Aborted | EndOfBlock | Sixteen | Value(run: nat, v: int)

  ghost predicate Gives(s: Step, r: Round, here: Cursor) {
    match s
    case Bad => r.Fail?
    case Abort => r.Aborted?
    case End(c) => r.EndOfBlock? && c == here
    case Skip(c) => r.Sixteen? && c == here
    case Coef(run, v, c) => r == Value(run, v) && c == here
  }

  /** The second branch, after the refill of the round. */
  method SlowRound(j: JpegBits, h: JHuffman, ghost x: Coding, ghost lens: seq<nat>, ghost c: Cursor) returns (r: Round)
    requires j.Valid() && h.Describes(lens) && x.Valid() && x.lens == lens && x.values == h.values[..]
    requires x.u == j.Segment() && x.marked == j.Ends()
    requires c.Valid(|x.u|, x.marked) && j.Here() == x.Refill(c, 16) && j.pos == c.pos
    modifies j`next, j`nomore, j`marker, j`codeBuffer, j`codeBits, j`pos
    ensures Gives(SlowStep(x, c), r, j.Here())
    ensures !r.Fail? && !r.Aborted? ==> j.Valid()
  {
    hide SegBits, Extend, Standing, Cursor.Valid, TableFor, JHuffman.Describes, CodewordAt, NoCodewordAt, LastTen;
    ghost var sym := x.Symbol(c.pos);
    if sym >= 0 {
      RoundRefill(x, c, BitsUsed(lens, sym));
      RoundRefill(x, c, 10);
    }
    var rs, aborted, _ := j.HuffDecode(h, lens);
    if aborted {
      return Aborted;
    }
    if rs < 0 {
      return Fail;
    }
    var s, run := rs % 16, rs / 16;
    if s == 0 {
      return if rs != 0xF0 then EndOfBlock else Sixteen;
    }
    var v := j.ExtendReceive(s);
    r := Value(run, v);
  }

  /** `fac` is the combined table. */
  ghost predicate Combined(x: Coding, fac: seq<int>) {
    x.Valid() && |fac| == FAST_SIZE && forall i: nat :: i < FAST_SIZE ==> fac[i] == FastAcEntry(x.t, x.values, i)
  }

  /** The entry for the top nine bits of the buffer. */
  method Peek(j: JpegBits, fac: array<int>, ghost x: Coding, ghost p: nat) returns (e: int)
    requires Combined(x, fac[..])
    requires j.codeBuffer < 0x1_0000_0000 && Window(j.Buffer()) == SegBits(x.u, p, 16)
    ensures e == x.Entry(p)
  {
    hide SegBits, Shr, Low, TableFor, FastAcEntry;
    Top(j.codeBuffer, 9);
    TopShort(j.codeBuffer, 9, 32);
    ShrShr(j.codeBuffer, 16, 7);
    SegPrefix(x.u, p, 9, 16);
    e := fac[Low(Shr(j.codeBuffer, 32 - FAST_BITS), FAST_BITS)];
  }

  /** The first branch, after the refill of the round. */
  method TakeEntry(j: JpegBits, e: int) returns (r: Round)
    requires j.Valid()
    modifies j`codeBuffer, j`codeBits, j`pos
    ensures if e % 16 > old(j.codeBits) then r == Fail
      else j.Valid() && r == Value(e / 16 % 16, e / 256) && j.Here() == old(j.Here()).Take(e % 16)
  {
    hide SegBits, Standing;
    var s := e % 16;
    if s > j.codeBits {
      return Fail;
    }
    j.Drop(s);
    r := Value(e / 16 % 16, e / 256);
  }

  /** A round of the loop: a refill and one of the branches. */
  method AcRound(j: JpegBits, h: JHuffman, fac: array<int>, ghost x: Coding, ghost lens: seq<nat>) returns (r: Round)
    requires j.Valid() && h.Describes(lens) && x.Valid() && x.lens == lens && x.values == h.values[..]
    requires x.u == j.Segment() && x.marked == j.Ends()
    requires Combined(x, fac[..])
    modifies j`next, j`nomore, j`marker, j`codeBuffer, j`codeBits, j`pos
    ensures Gives(FastStep(x, old(j.Here())), r, j.Here())
    ensures !r.Fail? && !r.Aborted? ==> j.Valid()
  {
    hide SegBits, Standing, Cursor.Valid, TableFor, JHuffman.Describes, FastAcEntry, SlowStep, FastStep, Coding.Refill,
      Coding.Entry, Extend;
    ghost var c := j.Here();
    RefillRound(j, x);
    FastStepIs(x, c);
    var e := Peek(j, fac, x, c.pos);
    if e != 0 {
      r := TakeEntry(j, e);
    } else {
      r := SlowRound(j, h, x, lens, c);
    }
  }

  lemma FastStepIs(x: Coding, c: Cursor)
    requires x.Valid()
    ensures var f, e := x.Refill(c, 16), x.Entry(c.pos);
      FastStep(x, c)
      == if e == 0 then SlowStep(x, c)
         else if e % 16 > f.bits then Bad
         else Coef(e / 16 % 16, e / 256, f.Take(e % 16))
  {
    hide SlowStep, TableFor, FastAcEntry, Coding.Refill;
  }

  /** The refill of the round. */
  method RefillRound(j: JpegBits, ghost x: Coding)
    requires j.Valid() && x.u == j.Segment() && x.marked == j.Ends()
    modifies j`next, j`nomore, j`marker, j`codeBuffer, j`codeBits
    ensures j.Valid() && old(j.Here()).Valid(|x.u|, x.marked) && j.Here() == x.Refill(old(j.Here()), 16)
    ensures j.pos == old(j.pos)
    ensures j.codeBuffer < 0x1_0000_0000 && Window(j.Buffer()) == SegBits(x.u, j.pos, 16)
  {
    hide SegBits, Standing, Cursor.Valid;
    StandingValid(j.data, j.next, j.Here());
    RefillValid(x, j.Here());
    j.Refill();
  }

  /** The AC loop of `stbi__jpeg_decode_block`. */
  method DecodeAc(
      j: JpegBits, h: JHuffman, fac: array<int>, data: array<int>, dequant: seq<nat>, ghost lens: seq<nat>)
    returns (ok: bool, aborted: bool)
    requires j.Valid() && h.Describes(lens) && Combined(CodingOf(j, h, lens, dequant), fac[..])
    requires data.Length == 64 && data != fac && data != h.delta
    modifies j`next, j`nomore, j`marker, j`codeBuffer, j`codeBits, j`pos, data
    ensures var r := AcRun(true, CodingOf(j, h, lens, dequant), 1, old(data[..]), old(j.Here()));
      && (aborted <==> r.AcAbort?)
      && (!aborted ==> (ok <==> r.AcDone?))
      && (!aborted && ok ==> j.Valid() && r == AcDone(data[..], j.Here()))
    ensures !aborted && ok ==>
      Stored(CodingOf(j, h, lens, dequant), Trace(true, CodingOf(j, h, lens, dequant), 1, old(j.Here())), old(data[..]), data[..])
  {
    hide SegBits, JpegBits.Valid, TableFor, FastAcEntry, JHuffman.Describes, FastStep, SlowStep, Dezigzag, Stored, Trace;
    ghost var x := CodingOf(j, h, lens, dequant);
    ghost var goal := AcRun(true, x, 1, data[..], j.Here());
    if goal.AcDone? {
      RunStores(true, x, 1, data[..], j.Here());
    }
    var k := 1;
    while k < 64
      invariant 1 <= k && j.Valid() && h.Describes(lens) && CodingOf(j, h, lens, dequant) == x && Combined(x, fac[..])
      invariant AcRun(true, x, k, data[..], j.Here()) == goal
      decreases 64 - k
    {
      var r := AcRound(j, h, fac, x, lens);
      match r {
        case Fail => return false, false;
        case Aborted => return false, true;
        case EndOfBlock => return true, false;
        case Sixteen =>
          k := k + 16;
        case Value(run, v) =>
          k := k + run;
          var zig := Dezigzag(k);
          data[zig] := ToShort(v * dequant[zig]);
          k := k + 1;
      }
    }
    return true, false;
  }

  // -------------------------------------------------------------- what the loop stores

  /** The coefficients that the loop decodes from `k` on, with their places in the zigzag order. */
  ghost function Trace(fast: bool, x: Coding, k: nat, c: Cursor): seq<(nat, int)>
    requires x.Valid()
    decreases 64 - k
  {
    if k >= 64 then []
    else
      match (if fast then FastStep(x, c) else SlowStep(x, c))
      case Bad => []
      case Abort => []
      case End(_) => []
      case Skip(q) => Trace(fast, x, k + 16, q)
      case Coef(run, v, q) => [(k + run, v)] + Trace(fast, x, k + run + 1, q)
  }

  /** The number of a place in figure A.6. */
  function FigureNumber(n: nat): nat
    requires n < 64
  {
    ZigzagRow(n / 8)[n % 8]
  }

  lemma FigureUpper(i: nat, j: nat)
    requires i < 4 && j < 8
    ensures ZigzagRow(i)[j] < 64 && Dezigzag(ZigzagRow(i)[j]) == 8 * i + j
  {
    assert i == 0 || i == 1 || i == 2 || i == 3;
    assert j == 0 || j == 1 || j == 2 || j == 3 || j == 4 || j == 5 || j == 6 || j == 7;
  }

  lemma FigureLower(i: nat, j: nat)
    requires 4 <= i < 8 && j < 8
    ensures ZigzagRow(i)[j] < 64 && Dezigzag(ZigzagRow(i)[j]) == 8 * i + j
  {
    assert i == 4 || i == 5 || i == 6 || i == 7;
    assert j == 0 || j == 1 || j == 2 || j == 3 || j == 4 || j == 5 || j == 6 || j == 7;
  }

  /** A place has one number and a number one place. */
  lemma FigureInverse(n: nat)
    requires n < 64
    ensures FigureNumber(n) < 64 && Dezigzag(FigureNumber(n)) == n
  {
    hide ZigzagRow, Dezigzag;
    if n < 32 {
      FigureUpper(n / 8, n % 8);
    } else {
      FigureLower(n / 8, n % 8);
    }
  }

  lemma PastTheEnd(k: nat)
    requires 64 <= k < 79
    ensures Dezigzag(k) == 63
  {}

  lemma LastPlace()
    ensures FigureNumber(63) == 63 && Dezigzag(63) == 63
  {}

  /** Coefficient `t` of the zigzag order is for place `n`; past the end of a block it is for the last one. */
  ghost predicate For(t: (nat, int), n: nat)
    requires n < 64
  {
    (if t.0 < 64 then t.0 else 63) == FigureNumber(n)
  }

  /** Entry `n` is the value `v` times the step of the same place, modulo 2 to the 16. */
  ghost predicate Dequantized(x: Coding, data: seq<int>, n: nat, v: int)
    requires |x.dequant| == |data| == 64 && n < 64
  {
    -0x8000 <= data[n] < 0x8000 && (data[n] - v * x.dequant[n]) % 0x1_0000 == 0
  }

  /** Entry `n` is what the coefficient for it says, and as it was if there is none. */
  ghost predicate Settled(x: Coding, trace: seq<(nat, int)>, before: seq<int>, after: seq<int>, n: nat)
    requires |x.dequant| == |before| == |after| == 64 && n < 64
  {
    && (forall i :: 0 <= i < |trace| && For(trace[i], n) ==> Dequantized(x, after, n, trace[i].1))
    && ((forall i :: 0 <= i < |trace| ==> !For(trace[i], n)) ==> after[n] == before[n])
  }

  ghost predicate Stored(x: Coding, trace: seq<(nat, int)>, before: seq<int>, after: seq<int>)
    requires |x.dequant| == |before| == |after| == 64
  {
    forall n: nat :: n < 64 ==> Settled(x, trace, before, after, n)
  }

  lemma {:induction false} TraceAfter(fast: bool, x: Coding, k: nat, c: Cursor, i: nat)
    requires x.Valid() && i < |Trace(fast, x, k, c)|
    ensures k < 64 && k <= Trace(fast, x, k, c)[i].0 < 79
    decreases 64 - k
  {
    hide SlowStep, FastStep, TableFor;
    match (if fast then FastStep(x, c) else SlowStep(x, c)) {
      case Skip(q) => TraceAfter(fast, x, k + 16, q, i);
      case Coef(run, v, q) =>
        if i > 0 {
          TraceAfter(fast, x, k + run + 1, q, i - 1);
        }
      case _ =>
    }
  }

  /** Coefficient `k` is for the place that the table gives. */
  lemma ForPlace(k: nat, v: int, n: nat)
    requires k < 79 && n < 64
    ensures For((k, v), n) <==> n == Dezigzag(k)
  {
    hide FigureNumber, Dezigzag;
    FigureInverse(n);
    LastPlace();
    if k >= 64 {
      PastTheEnd(k);
    } else {
      NumberOf(k);
    }
  }

  /** One coefficient in its place. */
  lemma PlaceStored(x: Coding, data: seq<int>, k: nat, v: int)
    requires |x.dequant| == |data| == 64 && k < 79
    ensures Stored(x, [(k, v)], data, Place(x, data, k, v))
  {
    hide ToShort, For, Dezigzag;
    forall n: nat | n < 64
      ensures Settled(x, [(k, v)], data, Place(x, data, k, v), n)
    {
      ForPlace(k, v, n);
      assert [(k, v)][0] == (k, v);
    }
  }

  lemma NumberOf(k: nat)
    requires k < 64
    ensures FigureNumber(Dezigzag(k)) == k
  {
    hide ZigzagRow, Dezigzag;
    DezigzagInverse(k);
  }

  /** Coefficients that are for other places do not disturb it. */
  lemma StoredNext(x: Coding, t: (nat, int), rest: seq<(nat, int)>, before: seq<int>, mid: seq<int>, after: seq<int>)
    requires |x.dequant| == |before| == |mid| == |after| == 64
    requires Stored(x, [t], before, mid) && Stored(x, rest, mid, after)
    requires forall i, n: nat :: 0 <= i < |rest| && n < 64 && For(rest[i], n) ==> !For(t, n)
    ensures Stored(x, [t] + rest, before, after)
  {
    hide Settled;
    forall n: nat | n < 64
      ensures Settled(x, [t] + rest, before, after, n)
    {
      SettledNext(x, t, rest, before, mid, after, n);
    }
  }

  lemma SettledNext(
      x: Coding, t: (nat, int), rest: seq<(nat, int)>, before: seq<int>, mid: seq<int>, after: seq<int>, n: nat)
    requires |x.dequant| == |before| == |mid| == |after| == 64 && n < 64
    requires Settled(x, [t], before, mid, n) && Settled(x, rest, mid, after, n)
    requires forall i :: 0 <= i < |rest| && For(rest[i], n) ==> !For(t, n)
    ensures Settled(x, [t] + rest, before, after, n)
  {
    hide For;
    var trace := [t] + rest;
    assert trace[0] == t == [t][0];
    assert forall i :: 0 <= i < |rest| ==> trace[i + 1] == rest[i];
    forall i | 0 <= i < |trace| && For(trace[i], n)
      ensures Dequantized(x, after, n, trace[i].1)
    {
      if i > 0 {
        assert trace[i] == rest[i - 1];
      }
    }
  }

  lemma NothingStored(x: Coding, data: seq<int>)
    requires |x.dequant| == |data| == 64
    ensures Stored(x, [], data, data)
  {}

  /** A run stores exactly the coefficients that it decodes. */
  lemma {:induction false} RunStores(fast: bool, x: Coding, k: nat, data: seq<int>, c: Cursor)
    requires x.Valid() && |data| == 64 && AcRun(fast, x, k, data, c).AcDone?
    ensures |AcRun(fast, x, k, data, c).data| == 64
    ensures Stored(x, Trace(fast, x, k, c), data, AcRun(fast, x, k, data, c).data)
    decreases 64 - k
  {
    hide SlowStep, FastStep, TableFor, Place, For, Stored;
    NothingStored(x, data);
    if k < 64 {
      match (if fast then FastStep(x, c) else SlowStep(x, c)) {
        case Skip(q) => RunStores(fast, x, k + 16, data, q);
        case Coef(run, v, q) =>
          var mid := Place(x, data, k + run, v);
          var rest := Trace(fast, x, k + run + 1, q);
          RunStores(fast, x, k + run + 1, mid, q);
          PlaceStored(x, data, k + run, v);
          LaterElsewhere(fast, x, k + run, v, q);
          StoredNext(x, (k + run, v), rest, data, mid, AcRun(fast, x, k, data, c).data);
        case _ =>
      }
    }
  }

  /** Later coefficients are for later places. */
  lemma LaterElsewhere(fast: bool, x: Coding, k: nat, v: int, c: Cursor)
    requires x.Valid()
    ensures var rest := Trace(fast, x, k + 1, c);
      forall i, n: nat :: 0 <= i < |rest| && n < 64 && For(rest[i], n) ==> !For((k, v), n)
  {
    hide TableFor, FigureNumber;
    var rest := Trace(fast, x, k + 1, c);
    hide Trace;
    forall i, n: nat | 0 <= i < |rest| && n < 64 && For(rest[i], n)
      ensures !For((k, v), n)
    {
      TraceAfter(fast, x, k + 1, c, i);
    }
  }

  // ------------------------------------------------------------------ at the marker

  lemma ShortSegment(data: seq<Byte>, b: Byte)
    requires data == [b, 0xFF, 0xD9] && b != 0xFF
    ensures Unstuffed(data, 0) == [b] && Marked(data, 0)
  {
    assert SkipFill(data, 2) == 2;
    assert Unstuffed(data, 1) == [] && Marked(data, 1);
  }

  /** The lengths of seven codes 0, 10, 110 ... and of 111111100. */
  lemma StairCodes(lens: seq<nat>)
    requires lens == [1, 2, 3, 4, 5, 6, 7, 9]
    ensures CodeOf(lens, 0) == 0 && CodeOf(lens, 7) == 508
  {
    hide Count;
    StairCount(lens, 1);
    StairCount(lens, 2);
    StairCount(lens, 3);
    StairCount(lens, 4);
    StairCount(lens, 5);
    StairCount(lens, 6);
    StairCount(lens, 7);
    StairCount(lens, 8);
    CountAbsent(lens, 7, 9);
    CountAbsent(lens, 0, 1);
    assert EndCode(lens, 1) == 1;
    assert EndCode(lens, 2) == 3;
    assert EndCode(lens, 3) == 7;
    assert EndCode(lens, 4) == 15;
    assert EndCode(lens, 5) == 31;
    assert EndCode(lens, 6) == 63;
    assert EndCode(lens, 7) == 127;
    assert EndCode(lens, 8) == 254;
  }

  lemma StairCount(lens: seq<nat>, l: nat)
    requires lens == [1, 2, 3, 4, 5, 6, 7, 9] && 1 <= l <= 8
    ensures Count(lens, 8, l) == if l == 8 then 0 else 1
  {
    if l == 8 {
      CountAbsent(lens, 8, l);
    } else {
      CountAbsent(lens, l - 1, l);
      CountOnce(lens, l - 1, 8, l);
    }
  }

  lemma {:induction false} CountOnce(lens: seq<nat>, i: nat, n: nat, l: nat)
    requires i < n <= |lens| && lens[i] == l && Count(lens, i, l) == 0 && forall k :: i < k < n ==> lens[k] != l
    ensures Count(lens, n, l) == 1
  {
    if i + 1 < n {
      CountOnce(lens, i, n - 1, l);
    }
  }

  lemma StairBits(u: seq<Byte>)
    requires u == [0x7F]
    ensures SegBits(u, 0, 1) == 0 && SegBits(u, 1, 9) == 508
  {
    assert SegBits(u, 0, 0) == 0 && Shr(0x7F, 7) == 0;
    assert SegBits(u, 0, 1) == 0;
    hide SegBits;
    SegByte(u, 0);
    SegSplit(u, 0, 1, 7);
    SegSplit(u, 1, 7, 2);
    SegZero(u, 8, 2);
    ShlZero(7);
    ShlStep(127, 1);
    ShlStep(127, 2);
  }

  /**
   Exhaustion is reported once only: after a code of one bit has met the marker, a code of
   nine bits is decoded from the seven that are left and two made up.
   */
  lemma PastTheMarker(data: seq<Byte>, lens: seq<nat>)
    requires data == [0x7F, 0xFF, 0xD9] && lens == [1, 2, 3, 4, 5, 6, 7, 9]
    ensures var u, start := Unstuffed(data, 0), Cursor(0, 0, false);
      var after := Refilled(|u|, Marked(data, 0), start, 16).Take(1);
      && CodewordAt(lens, 0, u, 0) && !start.Short(|u|, Marked(data, 0), 1)
      && CodewordAt(lens, 7, u, 1) && !after.Short(|u|, Marked(data, 0), 9)
      && after == Cursor(1, 7, true) && 1 + 9 > 8 * |u|
  {
    hide SegBits, CodeOf, Unstuffed, Marked;
    ShortSegment(data, 0x7F);
    StairCodes(lens);
    StairBits(Unstuffed(data, 0));
  }

  /**
   A code of two bits with a magnitude of seven, of which eight bits are there: the
   combined table fails, and without it the value is 64.
   */
  lemma CutShort(x: Coding, data: seq<Byte>)
    requires x.Valid() && x.lens == [2] && x.values[0] == 0x07
    requires data == [0x20, 0xFF, 0xD9] && x.u == Unstuffed(data, 0) && x.marked == Marked(data, 0)
    ensures var c := Cursor(0, 0, false);
      && c.Valid(|x.u|, x.marked) && x.Entry(0) == 64 * 256 + 9
      && FastStep(x, c).Bad? && SlowStep(x, c).Coef? && SlowStep(x, c).v == 64 && SlowStep(x, c).run == 0
  {
    hide *;
    ShortSegment(data, 0x20);
    CutShortBits(x.u);
    CutShortAt(x, 64 * 256 + 9);
  }

  lemma CutShortAt(x: Coding, e: int)
    requires x.Valid() && x.lens == [2] && x.values[0] == 0x07 && |x.u| == 1 && x.marked && SegBits(x.u, 0, 9) == 64
    requires e == 64 * 256 + 9
    ensures Cursor(0, 0, false).Valid(|x.u|, x.marked) && x.Entry(0) == e
    ensures FastStep(x, Cursor(0, 0, false)).Bad?
    ensures SlowStep(x, Cursor(0, 0, false)).Coef?
    ensures SlowStep(x, Cursor(0, 0, false)).v == 64 && SlowStep(x, Cursor(0, 0, false)).run == 0
  {
    hide SegBits, Extend, SlowStep, FastStep, TableFor, FastAcEntry, Coding.Refill;
    CutShortEntry(x.t, x.lens, x.values, SegBits(x.u, 0, 9));
    FastStepExact(x, Cursor(0, 0, false));
    EntryWhole(x, Cursor(0, 0, false));
  }

  lemma CutShortBits(u: seq<Byte>)
    requires u == [0x20]
    ensures SegBits(u, 0, 9) == 64
  {
    hide SegBits;
    SegByte(u, 0);
    SegSplit(u, 0, 8, 1);
    SegZero(u, 8, 1);
    ShlStep(32, 1);
  }

  lemma CutShortFast(t: Table, lens: seq<nat>, i: nat)
    requires TableFor(t, lens) && lens == [2] && i == 64
    ensures t.fast[i] == 0 && t.size[0] == 2
  {
    FirstIsZero(lens);
    ShrSixtyFour();
    hide KraftHolds, EndCode, FirstCode, CodeOf, Shl, Shr, Low, Pow2, Shorter;
    assert FastEntry(lens, 1, i, t.fast[i]);
    assert Matches(lens, 0, i, FAST_BITS);
    assert t.size[..1][0] == t.size[0];
  }

  lemma CutShortEntry(t: Table, lens: seq<nat>, values: seq<nat>, i: nat)
    requires TableFor(t, lens) && lens == [2] && |values| == 256 && values[0] == 7 && i == 64
    ensures FastAcEntry(t, values, i) == 64 * 256 + 9
  {
    ShrSixtyFour();
    Pow2Seven();
    hide KraftHolds, EndCode, FirstCode, CodeOf, Shl, Shr, Low, Pow2, Shorter, FastEntry;
    CutShortFast(t, lens, i);
  }

  lemma Pow2Seven()
    ensures Pow2(7) == 128
  {}

  lemma FirstIsZero(lens: seq<nat>)
    requires lens == [2]
    ensures CodeOf(lens, 0) == 0
  {
    CountAbsent(lens, 1, 1);
    assert EndCode(lens, 1) == 0;
  }

  lemma ShrSixtyFour()
    ensures Shr(64, 7) == 0
    ensures Shr(Low(Shl(64, 2), 9), 2) == 64 && Shl(1, 6) == 64
  {
    assert Shl(64, 2) == 256 && Shl(1, 6) == 64;
    Pow2Nine();
    LowSmall(256, 9);
  }
}
