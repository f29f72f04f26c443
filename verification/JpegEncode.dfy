/**
 An encoder of AC coefficients, written from section F.1.2.2 of ITU-T T.81, and the round
 trip through the AC loop: the coefficients of a block come back dequantized, each in its
 place.
 */
module JpegEncode {
  import opened Bits
  import opened CanonicalCode
  import opened JpegHuffman
  import opened JpegSegment
  import opened JpegReader
  import opened JpegBlock

  // --------------------------------------------------------------------------- bits

  /** The segment goes on with `bits` at position `p`. */
  ghost predicate Carries(u: seq<Byte>, p: nat, bits: seq<nat>) {
    forall i :: 0 <= i < |bits| ==> SegBit(u, p + i) == bits[i]
  }

  lemma CarriesBoth(u: seq<Byte>, p: nat, a: seq<nat>, b: seq<nat>)
    requires Carries(u, p, a + b)
    ensures Carries(u, p, a) && Carries(u, p + |a|, b)
  {
    hide SegBit;
    forall i | 0 <= i < |a|
      ensures SegBit(u, p + i) == a[i]
    {
      assert (a + b)[i] == a[i];
    }
    forall i | 0 <= i < |b|
      ensures SegBit(u, p + |a| + i) == b[i]
    {
      assert (a + b)[|a| + i] == b[i];
    }
  }

  lemma {:induction false} CarriesMsb(u: seq<Byte>, p: nat, v: nat, n: nat)
    requires v < Pow2(n) && Carries(u, p, Msb(v, n))
    ensures SegBits(u, p, n) == v
    decreases n
  {
    hide SegBit;
    if n > 0 {
      CarriesBoth(u, p, Msb(v / 2, n - 1), [v % 2]);
      assert SegBit(u, p + (n - 1) + 0) == [v % 2][0];
      CarriesMsb(u, p, v / 2, n - 1);
    }
  }

  // ---------------------------------------------------------------------- magnitudes

  /** SSSS: the number of bits of the absolute value. */
  function Size(v: int): (s: nat)
    ensures v != 0 ==> s > 0 && (Pow2(s - 1) <= v < Pow2(s) || Pow2(s - 1) <= -v < Pow2(s))
    decreases if v < 0 then -v else v
  {
    if v == 0 then 0 else if v < 0 then 1 + Size(-((-v) / 2)) else 1 + Size(v / 2)
  }

  /** The low bits of `v`, or of `v - 1` when it is negative. */
  function MagnitudeOf(v: int): (m: int)
    requires v != 0
    ensures 0 <= m < Pow2(Size(v))
  {
    if v > 0 then v else v - 1 + Pow2(Size(v))
  }

  lemma ExtendMagnitude(v: int)
    requires v != 0
    ensures Extend(MagnitudeOf(v), Size(v)) == v
  {
    hide Size;
    assert Pow2(Size(v)) == 2 * Pow2(Size(v) - 1);
  }

  // ------------------------------------------------------------------------- symbols

  /** Symbol index `sym` stands for the value `rs`, and its code can be read. */
  ghost predicate Stands(x: Coding, sym: nat, rs: nat) {
    sym < |x.lens| && sym < |x.values| && x.lens[sym] > 0 && x.values[sym] == rs && !Flagged(x.lens, sym)
  }

  ghost predicate HasCode(x: Coding, rs: nat) {
    exists sym: nat :: Stands(x, sym, rs)
  }

  /** A symbol index for `rs`. */
  ghost function SymbolOf(x: Coding, rs: nat): (sym: nat)
    requires HasCode(x, rs)
    ensures Stands(x, sym, rs)
  {
    var sym: nat :| Stands(x, sym, rs);
    sym
  }

  /** The codeword of `rs`. */
  ghost function CodeBits(x: Coding, rs: nat): seq<nat> {
    if HasCode(x, rs) then Msb(CodeOf(x.lens, SymbolOf(x, rs)), x.lens[SymbolOf(x, rs)]) else []
  }

  lemma CodeLength(x: Coding, sym: nat)
    requires x.Valid() && sym < |x.lens|
    ensures 0 < x.lens[sym] <= 16 && CodeOf(x.lens, sym) < Pow2(x.lens[sym])
  {
    hide CodeOf, Shl, FastEntry, EndCode, FirstCode, Shorter;
    CodeFits(x.lens, sym, 16);
  }

  /** A code that was written is read back, with its length. */
  lemma CodeRead(x: Coding, p: nat, rs: nat)
    requires x.Valid() && HasCode(x, rs) && Carries(x.u, p, CodeBits(x, rs))
    ensures x.Symbol(p) == SymbolOf(x, rs) && BitsUsed(x.lens, SymbolOf(x, rs)) == |CodeBits(x, rs)| <= 16
  {
    hide CodeOf, SegBits, Carries, Msb, KraftHolds, FastEntry, EndCode, FirstCode, Shorter, Shl;
    var sym := SymbolOf(x, rs);
    CodeLength(x, sym);
    CarriesMsb(x.u, p, CodeOf(x.lens, sym), x.lens[sym]);
    CodewordIsMatch(x.lens, sym, x.u, p, 16);
    DecodeIs(x.lens, sym, SegBits(x.u, p, 16));
  }

  /** A step on a code that was written. */
  lemma CodeStep(x: Coding, c: Cursor, rs: nat)
    requires x.Valid() && c.Valid(|x.u|, x.marked) && rs < 256
    requires HasCode(x, rs) && Carries(x.u, c.pos, CodeBits(x, rs))
    ensures var q := x.Refill(x.Refill(c, 16), 16).Take(|CodeBits(x, rs)|);
      && q.Valid(|x.u|, x.marked) && q.pos == c.pos + |CodeBits(x, rs)|
      && SlowStep(x, c) == if rs % 16 == 0 then if rs == 0xF0 then Skip(q) else End(q)
                           else Magnitude(x, q, rs / 16, rs % 16)
  {
    hide TableFor, CodeBits, Carries, Cursor.Valid, Coding.Refill, Magnitude, Coding.Symbol, BitsUsed;
    CodeRead(x, c.pos, rs);
    RoundRefill(x, c, |CodeBits(x, rs)|);
  }

  /** A magnitude that was written, all of it inside the segment. */
  lemma MagnitudeRead(x: Coding, q: Cursor, run: nat, v: int)
    requires q.Valid(|x.u|, x.marked) && v != 0 && Size(v) <= 15
    requires Carries(x.u, q.pos, Msb(MagnitudeOf(v), Size(v))) && q.pos + Size(v) <= 8 * |x.u|
    ensures var s := Magnitude(x, q, run, Size(v));
      s.Coef? && s.run == run && s.v == v && s.c.Valid(|x.u|, x.marked) && s.c.pos == q.pos + Size(v)
  {
    hide Carries, Msb, Extend, Size, MagnitudeOf, SegBits, Cursor.Valid;
    CarriesMsb(x.u, q.pos, MagnitudeOf(v), Size(v));
    ExtendMagnitude(v);
    ShortWhen(|x.u|, x.marked, q, Size(v), Size(v));
  }

  // -------------------------------------------------------------------------- blocks

  /** How many zeros follow from `k` on. */
  function ZeroRun(zz: seq<int>, k: nat): (r: nat)
    requires |zz| == 64 && k <= 64
    ensures k + r <= 64 && (k + r < 64 ==> zz[k + r] != 0) && forall i :: k <= i < k + r ==> zz[i] == 0
    decreases 64 - k
  {
    if k < 64 && zz[k] == 0 then 1 + ZeroRun(zz, k + 1) else 0
  }

  /** The table has codes for the coefficients from `k` on. */
  ghost predicate Encodable(x: Coding, zz: seq<int>, k: nat)
    requires |zz| == 64 && k <= 64
    decreases 64 - k
  {
    var r := ZeroRun(zz, k);
    if k == 64 then true
    else if k + r == 64 then HasCode(x, 0x00)
    else if r >= 16 then HasCode(x, 0xF0) && Encodable(x, zz, k + 16)
    else Size(zz[k + r]) <= 15 && HasCode(x, 16 * r + Size(zz[k + r])) && Encodable(x, zz, k + r + 1)
  }

  /**
   The coefficients from `k` on, in the zigzag order: the end of the block when only zeros
   are left, else sixteen zeros while there are as many, else the run of zeros with the size
   of the next coefficient, and its magnitude.
   */
  ghost function AcBits(x: Coding, zz: seq<int>, k: nat): seq<nat>
    requires |zz| == 64 && k <= 64
    decreases 64 - k
  {
    var r := ZeroRun(zz, k);
    if k == 64 then []
    else if k + r == 64 then CodeBits(x, 0x00)
    else if r >= 16 then CodeBits(x, 0xF0) + AcBits(x, zz, k + 16)
    else
      var v := zz[k + r];
      CodeBits(x, 16 * r + Size(v)) + (Msb(MagnitudeOf(v), Size(v)) + AcBits(x, zz, k + r + 1))
  }

  /** The coefficients that are not zero. */
  function NonZero(zz: seq<int>, k: nat): (t: seq<(nat, int)>)
    requires |zz| == 64 && k <= 64
    ensures forall i :: 0 <= i < |t| ==> k <= t[i].0 < 64 && t[i].1 == zz[t[i].0]
    ensures forall m: nat :: k <= m < 64 && zz[m] != 0 ==> exists i :: 0 <= i < |t| && t[i].0 == m
    decreases 64 - k
  {
    if k == 64 then []
    else if zz[k] == 0 then NonZero(zz, k + 1)
    else
      var rest := NonZero(zz, k + 1);
      var t := [(k, zz[k])] + rest;
      assert t[0].0 == k && forall i :: 0 <= i < |rest| ==> t[i + 1] == rest[i];
      t
  }

  lemma {:induction false} NonZeroSkips(zz: seq<int>, k: nat, m: nat)
    requires |zz| == 64 && k <= m <= 64 && forall i :: k <= i < m ==> zz[i] == 0
    ensures NonZero(zz, k) == NonZero(zz, m)
    decreases m - k
  {
    if k < m {
      NonZeroSkips(zz, k + 1, m);
    }
  }

  /** The reader stands before the encoded coefficients from `k` on, all of them inside the segment. */
  ghost predicate Ahead(x: Coding, zz: seq<int>, k: nat, c: Cursor)
    requires |zz| == 64 && k <= 64
  {
    && Encodable(x, zz, k) && c.Valid(|x.u|, x.marked)
    && Carries(x.u, c.pos, AcBits(x, zz, k)) && c.pos + |AcBits(x, zz, k)| <= 8 * |x.u|
  }

  /** The end of what is ahead. */
  ghost function EndOf(x: Coding, zz: seq<int>, k: nat, c: Cursor): nat
    requires |zz| == 64 && k <= 64
  {
    c.pos + |AcBits(x, zz, k)|
  }

  lemma EndStep(x: Coding, zz: seq<int>, k: nat, c: Cursor)
    requires x.Valid() && |zz| == 64 && k < 64 && Ahead(x, zz, k, c) && k + ZeroRun(zz, k) == 64
    ensures SlowStep(x, c).End? && SlowStep(x, c).c.pos == EndOf(x, zz, k, c)
  {
    hide TableFor, CodeBits, Carries, Cursor.Valid, Coding.Refill, Magnitude, SlowStep, HasCode, ZeroRun;
    CodeStep(x, c, 0x00);
  }

  lemma SkipStep(x: Coding, zz: seq<int>, k: nat, c: Cursor)
    requires x.Valid() && |zz| == 64 && k < 64 && Ahead(x, zz, k, c) && k + ZeroRun(zz, k) < 64 && ZeroRun(zz, k) >= 16
    ensures SlowStep(x, c).Skip?
    ensures Ahead(x, zz, k + 16, SlowStep(x, c).c) && EndOf(x, zz, k + 16, SlowStep(x, c).c) == EndOf(x, zz, k, c)
  {
    hide TableFor, CodeBits, Carries, Cursor.Valid, Coding.Refill, Magnitude, SlowStep, HasCode, ZeroRun;
    CarriesBoth(x.u, c.pos, CodeBits(x, 0xF0), AcBits(x, zz, k + 16));
    CodeStep(x, c, 0xF0);
  }

  lemma SymbolParts(r: nat, s: nat)
    requires r < 16 && s < 16
    ensures 16 * r + s < 256 && (16 * r + s) / 16 == r && (16 * r + s) % 16 == s
  {}

  lemma CoefBits(x: Coding, zz: seq<int>, k: nat)
    requires |zz| == 64 && k < 64 && k + ZeroRun(zz, k) < 64 && ZeroRun(zz, k) < 16
    ensures var r := ZeroRun(zz, k); var v := zz[k + r];
      && v != 0
      && AcBits(x, zz, k)
        == CodeBits(x, 16 * r + Size(v)) + (Msb(MagnitudeOf(v), Size(v)) + AcBits(x, zz, k + r + 1))
      && (Encodable(x, zz, k) ==>
        Size(v) <= 15 && HasCode(x, 16 * r + Size(v)) && Encodable(x, zz, k + r + 1))
  {
    hide CodeBits, Size, MagnitudeOf, Msb, HasCode, ZeroRun;
  }

  /** What is ahead when a coefficient comes next: its symbol, its magnitude, and the rest. */
  lemma CoefAhead(x: Coding, zz: seq<int>, k: nat, c: Cursor, rs: nat, v: int)
    requires |zz| == 64 && k < 64 && Ahead(x, zz, k, c) && k + ZeroRun(zz, k) < 64 && ZeroRun(zz, k) < 16
    requires v == zz[k + ZeroRun(zz, k)] && rs == 16 * ZeroRun(zz, k) + Size(v)
    ensures var next, p := k + ZeroRun(zz, k) + 1, c.pos + |CodeBits(x, rs)|;
      && Size(v) <= 15 && v != 0 && HasCode(x, rs) && Encodable(x, zz, next)
      && Carries(x.u, c.pos, CodeBits(x, rs)) && Carries(x.u, p, Msb(MagnitudeOf(v), Size(v)))
      && Carries(x.u, p + Size(v), AcBits(x, zz, next))
      && EndOf(x, zz, k, c) == p + Size(v) + |AcBits(x, zz, next)| <= 8 * |x.u|
  {
    hide CodeBits, Carries, Cursor.Valid, Size, MagnitudeOf, Msb, HasCode, ZeroRun, AcBits, Encodable;
    var next := k + ZeroRun(zz, k) + 1;
    var magnitude, rest := Msb(MagnitudeOf(v), Size(v)), AcBits(x, zz, next);
    CoefBits(x, zz, k);
    CarriesBoth(x.u, c.pos, CodeBits(x, rs), magnitude + rest);
    CarriesBoth(x.u, c.pos + |CodeBits(x, rs)|, magnitude, rest);
  }

  lemma CoefStep(x: Coding, zz: seq<int>, k: nat, c: Cursor)
    requires x.Valid() && |zz| == 64 && k < 64 && Ahead(x, zz, k, c) && k + ZeroRun(zz, k) < 64 && ZeroRun(zz, k) < 16
    ensures var r, s := ZeroRun(zz, k), SlowStep(x, c);
      && s.Coef? && s.run == r && s.v == zz[k + r]
      && Ahead(x, zz, k + r + 1, s.c) && EndOf(x, zz, k + r + 1, s.c) == EndOf(x, zz, k, c)
  {
    hide TableFor, CodeBits, Carries, Cursor.Valid, Coding.Refill, Magnitude, SlowStep, Size, MagnitudeOf, Msb, HasCode,
      ZeroRun, Encodable, AcBits;
    var r := ZeroRun(zz, k);
    var v := zz[k + r];
    var rs := 16 * r + Size(v);
    CoefAhead(x, zz, k, c, rs, v);
    SymbolParts(r, Size(v));
    CodeStep(x, c, rs);
    MagnitudeRead(x, x.Refill(x.Refill(c, 16), 16).Take(|CodeBits(x, rs)|), r, v);
  }

  lemma NonZeroEnd(zz: seq<int>)
    requires |zz| == 64
    ensures NonZero(zz, 64) == []
  {}

  lemma NonZeroAt(zz: seq<int>, k: nat)
    requires |zz| == 64 && k < 64 && zz[k] != 0
    ensures NonZero(zz, k) == [(k, zz[k])] + NonZero(zz, k + 1)
  {}

  lemma NothingAhead(x: Coding, zz: seq<int>, c: Cursor)
    requires |zz| == 64
    ensures EndOf(x, zz, 64, c) == c.pos && NonZero(zz, 64) == []
  {}

  /** Decoding code by code gives back the coefficients that were encoded. */
  lemma {:induction false} EncodedTrace(x: Coding, zz: seq<int>, k: nat, data: seq<int>, c: Cursor)
    requires x.Valid() && |zz| == |data| == 64 && k <= 64 && Ahead(x, zz, k, c)
    ensures Trace(false, x, k, c) == NonZero(zz, k)
    ensures AcRun(false, x, k, data, c).AcDone?
    ensures AcRun(false, x, k, data, c).c.pos == EndOf(x, zz, k, c)
    decreases 64 - k
  {
    hide TableFor, Ahead, EndOf, SlowStep, ZeroRun, Place, NonZero, AcRun, Trace;
    var r := ZeroRun(zz, k);
    if k == 64 {
      NothingAhead(x, zz, c);
      RunOver(x, data, c);
    } else if k + r == 64 {
      EndStep(x, zz, k, c);
      NonZeroSkips(zz, k, 64);
      NonZeroEnd(zz);
      RunStep(x, k, data, c);
    } else if r >= 16 {
      SkipStep(x, zz, k, c);
      NonZeroSkips(zz, k, k + 16);
      RunStep(x, k, data, c);
      EncodedTrace(x, zz, k + 16, data, SlowStep(x, c).c);
    } else {
      CoefStep(x, zz, k, c);
      NonZeroSkips(zz, k, k + r);
      NonZeroAt(zz, k + r);
      RunStep(x, k, data, c);
      EncodedTrace(x, zz, k + r + 1, Place(x, data, k + r, zz[k + r]), SlowStep(x, c).c);
    }
  }

  lemma RunOver(x: Coding, data: seq<int>, c: Cursor)
    requires x.Valid() && |data| == 64
    ensures AcRun(false, x, 64, data, c) == AcDone(data, c) && Trace(false, x, 64, c) == []
  {}

  /** One round of the loop, in terms of the rest. */
  lemma RunStep(x: Coding, k: nat, data: seq<int>, c: Cursor)
    requires x.Valid() && |data| == 64 && k < 64
    ensures var s := SlowStep(x, c);
      && (s.End? ==> AcRun(false, x, k, data, c) == AcDone(data, s.c) && Trace(false, x, k, c) == [])
      && (s.Skip? ==>
        AcRun(false, x, k, data, c) == AcRun(false, x, k + 16, data, s.c)
        && Trace(false, x, k, c) == Trace(false, x, k + 16, s.c))
      && (s.Coef? ==>
        AcRun(false, x, k, data, c) == AcRun(false, x, k + s.run + 1, Place(x, data, k + s.run, s.v), s.c)
        && Trace(false, x, k, c) == [(k + s.run, s.v)] + Trace(false, x, k + s.run + 1, s.c))
  {
    hide TableFor, SlowStep, JpegBlock.FastStep, Place;
  }

  lemma AheadEncodable(x: Coding, zz: seq<int>, k: nat, c: Cursor)
    requires x.Valid() && |zz| == 64 && k <= 64 && Ahead(x, zz, k, c)
    ensures Encodable(x, zz, k) && c.Valid(|x.u|, x.marked) && EndOf(x, zz, k, c) <= 8 * |x.u|
  {}

  lemma ZeroDequantized(x: Coding, data: seq<int>, n: nat)
    requires |x.dequant| == |data| == 64 && n < 64
    ensures data[n] == 0 ==> Dequantized(x, data, n, 0)
  {}

  /** The steps of the encoded block leave every coefficient in its place. */
  lemma TraceSettles(x: Coding, zz: seq<int>, before: seq<int>, after: seq<int>, n: nat)
    requires |x.dequant| == |zz| == |before| == |after| == 64 && n < 64 && FigureNumber(n) >= 1 && before[n] == 0
    requires Settled(x, NonZero(zz, 1), before, after, n)
    ensures FigureNumber(n) < 64 && Dequantized(x, after, n, zz[FigureNumber(n)])
  {
    hide FigureNumber, NonZero, Dequantized;
    FigureInverse(n);
    ZeroDequantized(x, after, n);
    var t, m := NonZero(zz, 1), FigureNumber(n);
    if zz[m] != 0 {
      var i :| 0 <= i < |t| && t[i].0 == m;
      assert For(t[i], n);
    } else {
      forall i | 0 <= i < |t|
        ensures !For(t[i], n)
      {
        if t[i].0 == m {
          NonZeroValues(zz, 1, i);
        }
      }
    }
  }

  lemma {:induction false} NonZeroValues(zz: seq<int>, k: nat, i: nat)
    requires |zz| == 64 && k <= 64 && i < |NonZero(zz, k)|
    ensures NonZero(zz, k)[i].1 != 0
    decreases 64 - k
  {
    if zz[k] == 0 {
      NonZeroValues(zz, k + 1, i);
    } else if i > 0 {
      NonZeroValues(zz, k + 1, i - 1);
    }
  }

  /**
   The round trip: from a segment that holds an encoded block, the loop with its combined
   table succeeds, ends behind the block, and leaves in every AC place the coefficient with
   the number of that place in figure A.6, times the quantization step of the place.
   */
  lemma EncodedBlockDecodes(x: Coding, zz: seq<int>, data: seq<int>, c: Cursor)
    requires x.Valid() && |zz| == |data| == 64 && Ahead(x, zz, 1, c)
    requires forall n :: 1 <= n < 64 ==> data[n] == 0
    ensures AcRun(true, x, 1, data, c).AcDone? && |AcRun(true, x, 1, data, c).data| == 64
    ensures AcRun(true, x, 1, data, c).c.pos == EndOf(x, zz, 1, c)
    ensures AcRun(true, x, 1, data, c).data[0] == data[0]
    ensures forall n: nat :: 1 <= n < 64 ==>
      FigureNumber(n) < 64 && Dequantized(x, AcRun(true, x, 1, data, c).data, n, zz[FigureNumber(n)])
  {
    AheadEncodable(x, zz, 1, c);
    hide TableFor, Ahead, EndOf, Cursor.Valid, Encodable, AcRun, Trace, NonZero, FigureNumber, Dequantized, Settled;
    EncodedTrace(x, zz, 1, data, c);
    RunsAgree(x, 1, data, c, c);
    RunStores(false, x, 1, data, c);
    var after := AcRun(false, x, 1, data, c).data;
    forall n: nat | 1 <= n < 64
      ensures FigureNumber(n) < 64 && Dequantized(x, after, n, zz[FigureNumber(n)])
    {
      AcPlace(n);
      TraceSettles(x, zz, data, after, n);
    }
    DcUntouched(x, zz, data, after);
  }

  lemma AcPlace(n: nat)
    requires n < 64
    ensures FigureNumber(n) >= 1 <==> n >= 1
  {
    FigureInverse(n);
    assert FigureNumber(0) == 0;
    assert Dezigzag(0) == 0;
  }

  lemma DcUntouched(x: Coding, zz: seq<int>, before: seq<int>, after: seq<int>)
    requires |x.dequant| == |zz| == |before| == |after| == 64 && Stored(x, NonZero(zz, 1), before, after)
    ensures after[0] == before[0]
  {
    hide FigureNumber, NonZero;
    AcPlace(0);
    assert Settled(x, NonZero(zz, 1), before, after, 0);
  }

  // ------------------------------------------------------------------------ stuffing

  /** A segment as it is stored: a zero byte after every 0xFF (section F.1.2.3). */
  function Stuffed(u: seq<Byte>): seq<Byte> {
    if |u| == 0 then [] else (if u[0] == 0xFF then [0xFF, 0] else [u[0]]) + Stuffed(u[1..])
  }

  /** What may follow: nothing, or a marker, with fill bytes before it. */
  ghost predicate Terminates(tail: seq<Byte>) {
    tail == [] || exists n: nat :: Marker(tail, n)
  }

  ghost predicate Marker(tail: seq<Byte>, n: nat) {
    n + 1 < |tail| && (forall i :: 0 <= i <= n ==> tail[i] == 0xFF) && tail[n + 1] != 0 && tail[n + 1] != 0xFF
  }

  lemma {:induction false} FillSkipped(data: seq<Byte>, i: nat, j: nat)
    requires i <= j < |data| && (forall k :: i <= k < j ==> data[k] == 0xFF) && data[j] != 0xFF
    ensures SkipFill(data, i) == j
    decreases j - i
  {
    if i < j {
      FillSkipped(data, i + 1, j);
    }
  }

  lemma TailRead(head: seq<Byte>, tail: seq<Byte>)
    requires Terminates(tail)
    ensures Unstuffed(head + tail, |head|) == [] && (Marked(head + tail, |head|) <==> tail != [])
  {
    if tail != [] {
      var n: nat :| Marker(tail, n);
      var data := head + tail;
      assert forall k :: |head| <= k <= |head| + n ==> data[k] == tail[k - |head|];
      assert data[|head| + n + 1] == tail[n + 1];
      FillSkipped(data, |head| + 1, |head| + n + 1);
    }
  }

  lemma PlainByte(data: seq<Byte>, i: nat)
    requires i < |data| && data[i] != 0xFF
    ensures Unstuffed(data, i) == [data[i]] + Unstuffed(data, i + 1) && Marked(data, i) == Marked(data, i + 1)
  {}

  lemma StuffedByte(data: seq<Byte>, i: nat)
    requires i + 1 < |data| && data[i] == 0xFF && data[i + 1] == 0
    ensures Unstuffed(data, i) == [0xFF] + Unstuffed(data, i + 2) && Marked(data, i) == Marked(data, i + 2)
  {
    FillSkipped(data, i + 1, i + 1);
  }

  /** Removing the stuffing gives back the segment, up to the marker or the end of the data. */
  lemma {:induction false} StuffedRead(head: seq<Byte>, u: seq<Byte>, tail: seq<Byte>)
    requires Terminates(tail)
    ensures Unstuffed(head + Stuffed(u) + tail, |head|) == u
    ensures Marked(head + Stuffed(u) + tail, |head|) <==> tail != []
    decreases |u|
  {
    hide Unstuffed, Marked, Terminates;
    var data := head + Stuffed(u) + tail;
    if |u| == 0 {
      assert data == head + tail;
      TailRead(head, tail);
    } else if u[0] == 0xFF {
      StuffedRead(head + [0xFF, 0], u[1..], tail);
      assert data == head + [0xFF, 0] + Stuffed(u[1..]) + tail;
      StuffedByte(data, |head|);
    } else {
      StuffedRead(head + [u[0]], u[1..], tail);
      assert data == head + [u[0]] + Stuffed(u[1..]) + tail;
      PlainByte(data, |head|);
    }
  }
}
