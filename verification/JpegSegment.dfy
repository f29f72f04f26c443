/**
 The entropy-coded segment of a JPEG scan: its bytes with the stuffing removed, its bits,
 and how far a reader has got in it.

 A reader that meets a marker stops once with the bits it has; from then on it is given
 zeros without end.  At the end of the data there is no stop, only zeros.
 */
module JpegSegment {
  import opened Bits
  import opened CanonicalCode

  // -------------------------------------------------------------- reading the bits

  /** Bits handed out, bits in the buffer, and `nomore`: a marker has been met. */
  datatype Cursor = Cursor(pos: nat, bits: int, met: bool) {
    /** In a segment of `len` bytes that does or does not end in a marker. */
    ghost predicate Valid(len: nat, marked: bool) {
      && 0 <= bits <= 32
      && (met ==> marked && pos + bits >= 8 * len)
      && (marked && !met ==> pos + bits <= 8 * len && (pos + bits) % 8 == 0)
    }

    /** `n` bits taken from the buffer. */
    function Take(n: nat): Cursor {
      Cursor(pos + n, bits - n, met)
    }

    /** A refill meets the marker with fewer than `n` bits to come. */
    predicate Short(len: nat, marked: bool, n: nat) {
      marked && !met && pos + n > 8 * len
    }
  }

  /** `stbi__grow_buffer_unsafe`: whole bytes until there are more than 24 bits, or up to the marker. */
  function Grown(len: nat, marked: bool, c: Cursor): Cursor
    requires c.bits <= 24
  {
    var more := (32 - c.bits) / 8 * 8;
    if marked && !c.met && c.pos + c.bits + more > 8 * len then Cursor(c.pos, 8 * len - c.pos, true)
    else c.(bits := c.bits + more)
  }

  /** A refill when there are fewer than `n` bits. */
  function Refilled(len: nat, marked: bool, c: Cursor, n: nat): Cursor
    requires n <= 25
  {
    if c.bits < n then Grown(len, marked, c) else c
  }

  /** Only a refill that itself meets the marker leaves too few bits, and only when the segment has too few. */
  lemma ShortWhen(len: nat, marked: bool, c: Cursor, n: nat, l: nat)
    requires c.Valid(len, marked) && l <= n <= 25
    ensures var f := Refilled(len, marked, c, n);
      && f.Valid(len, marked) && f.pos == c.pos
      && (f.bits < l <==> c.Short(len, marked, l))
      && (f.bits < n ==> f.met && !c.met && f.bits == 8 * len - c.pos)
      && (l <= f.bits ==> f.Take(l).Valid(len, marked))
  {}

  // ------------------------------------------------------------- bytes and bits

  /** First position from `i` on that does not hold a fill byte. */
  function SkipFill(data: seq<Byte>, i: nat): (j: nat)
    requires i <= |data|
    ensures i <= j <= |data|
    ensures j < |data| ==> data[j] != 0xFF
    decreases |data| - i
  {
    if i < |data| && data[i] == 0xFF then SkipFill(data, i + 1) else i
  }

  /**
   The bytes of the segment from position `i` on, with stuffing removed, up to a marker
   (section F.1.2.3); past the data the reader sees zeros.
   */
  function Unstuffed(data: seq<Byte>, i: nat): seq<Byte>
    requires i <= |data|
    decreases |data| - i
  {
    if i == |data| then []
    else if data[i] != 0xFF then [data[i]] + Unstuffed(data, i + 1)
    else
      var j := SkipFill(data, i + 1);
      if j == |data| then [0xFF]
      else if data[j] == 0 then [0xFF] + Unstuffed(data, j + 1)
      else []
  }

  /** Reading from position `i` on comes to a marker. */
  predicate Marked(data: seq<Byte>, i: nat)
    requires i <= |data|
    decreases |data| - i
  {
    if i == |data| then false
    else if data[i] != 0xFF then Marked(data, i + 1)
    else
      var j := SkipFill(data, i + 1);
      j < |data| && (data[j] != 0 || Marked(data, j + 1))
  }

  /** Bit `p` of the segment, high bit of each byte first; zero past its end. */
  function SegBit(u: seq<Byte>, p: nat): (b: nat)
    ensures b < 2
  {
    if p / 8 < |u| then Shr(u[p / 8], 7 - p % 8) % 2 else 0
  }

  function SegBits(u: seq<Byte>, p: nat, n: nat): (v: nat)
    ensures v < Pow2(n)
  {
    if n == 0 then 0 else 2 * SegBits(u, p, n - 1) + SegBit(u, p + n - 1)
  }

  lemma SegStep(u: seq<Byte>, p: nat, n: nat)
    ensures SegBits(u, p, 0) == 0
    ensures n > 0 ==> SegBits(u, p, n) == 2 * SegBits(u, p, n - 1) + SegBit(u, p + n - 1)
  {}

  lemma {:induction false} SegSplit(u: seq<Byte>, p: nat, a: nat, b: nat)
    ensures SegBits(u, p, a + b) == Shl(SegBits(u, p, a), b) + SegBits(u, p + a, b)
    decreases b
  {
    hide SegBits, SegBit, Shl, Pow2;
    SegStep(u, p + a, b);
    SegStep(u, p, a + b);
    ShlStep(SegBits(u, p, a), b);
    if b > 0 {
      SegSplit(u, p, a, b - 1);
    }
  }

  lemma {:induction false} SegZero(u: seq<Byte>, p: nat, n: nat)
    requires p >= 8 * |u|
    ensures SegBits(u, p, n) == 0
  {
    if n > 0 {
      SegZero(u, p, n - 1);
    }
  }

  lemma SegByte(u: seq<Byte>, q: nat)
    ensures SegBits(u, 8 * q, 8) == if q < |u| then u[q] else 0
  {
    hide SegBits, Shr;
    SegByteUpTo(u, q, 8);
    if q < |u| {
      ShrStep(u[q], 0);
    }
  }

  lemma {:induction false} SegByteUpTo(u: seq<Byte>, q: nat, n: nat)
    requires n <= 8
    ensures SegBits(u, 8 * q, n) == if q < |u| then Shr(u[q], 8 - n) else 0
  {
    hide SegBits, Shr, Pow2;
    SegStep(u, 8 * q, n);
    if n > 0 {
      SegByteUpTo(u, q, n - 1);
      assert (8 * q + n - 1) / 8 == q && (8 * q + n - 1) % 8 == n - 1;
      if q < |u| {
        ShrShr(u[q], 8 - n, 1);
        ShrOne(Shr(u[q], 8 - n));
      }
    } else if q < |u| {
      ShlByte(0);
      LowSmall(u[q], 8);
    }
  }

  lemma {:induction false} SegPrefix(u: seq<Byte>, p: nat, n: nat, w: nat)
    requires n <= w
    ensures Shr(SegBits(u, p, w), w - n) == SegBits(u, p, n)
  {
    hide SegBits, Shr, Shl, Pow2;
    SegSplit(u, p, n, w - n);
    Compose(SegBits(u, p, n), SegBits(u, p + n, w - n), w - n);
  }

  /** The segment's bits at `p` start with the codeword of symbol `i`. */
  ghost predicate CodewordAt(lens: seq<nat>, i: nat, u: seq<Byte>, p: nat) {
    i < |lens| && lens[i] > 0 && SegBits(u, p, lens[i]) == CodeOf(lens, i)
  }

  ghost predicate NoCodewordAt(lens: seq<nat>, u: seq<Byte>, p: nat) {
    forall i: nat :: !CodewordAt(lens, i, u, p)
  }

  lemma CodewordsAreMatches(lens: seq<nat>, u: seq<Byte>, p: nat, w: nat)
    requires LengthsAtMost(lens, w)
    ensures forall i: nat :: CodewordAt(lens, i, u, p) <==> Matches(lens, i, SegBits(u, p, w), w)
  {
    hide SegBits, Shr, CodeOf;
    forall i: nat
      ensures CodewordAt(lens, i, u, p) <==> Matches(lens, i, SegBits(u, p, w), w)
    {
      if i < |lens| {
        CodewordIsMatch(lens, i, u, p, w);
      }
    }
  }

  lemma CodewordIsMatch(lens: seq<nat>, i: nat, u: seq<Byte>, p: nat, w: nat)
    requires i < |lens| && lens[i] <= w
    ensures CodewordAt(lens, i, u, p) <==> Matches(lens, i, SegBits(u, p, w), w)
  {
    hide SegBits, Shr, CodeOf;
    if lens[i] > 0 {
      SegPrefix(u, p, lens[i], w);
    }
  }

  // ------------------------------------------------------------ where a reader stands

  /** The bytes still to come from position `next` on. */
  ghost function RestOf(data: seq<Byte>, next: nat, met: bool): seq<Byte>
    requires next <= |data|
  {
    if met then [] else Unstuffed(data, next)
  }

  /** A reader at `c` has taken the bytes before `next`, and the rest of the segment is to come. */
  ghost predicate Standing(data: seq<Byte>, next: nat, c: Cursor)
    requires next <= |data|
  {
    var u, rest := Unstuffed(data, 0), RestOf(data, next, c.met);
    && c.Valid(|u|, Marked(data, 0))
    && |rest| <= |u| && rest == u[|u| - |rest|..]
    && (rest == [] ==> c.pos + c.bits >= 8 * |u|)
    && (rest != [] ==> c.pos + c.bits == 8 * (|u| - |rest|))
    && (!c.met ==> Marked(data, next) == Marked(data, 0))
    && (!c.met && Marked(data, 0) ==> c.pos + c.bits == 8 * (|u| - |rest|))
  }

  /** Reading goes on from `next` to `after` with the byte `b`, a zero if there is none. */
  ghost predicate Follows(data: seq<Byte>, next: nat, after: nat, met: bool, b: Byte)
    requires next <= |data|
  {
    && after <= |data|
    && (RestOf(data, next, met) == [] ==> b == 0 && RestOf(data, after, met) == [])
    && (RestOf(data, next, met) != [] ==> RestOf(data, next, met) == [b] + RestOf(data, after, met))
    && (!met ==> Marked(data, after) == Marked(data, next))
  }

  lemma StandingValid(data: seq<Byte>, next: nat, c: Cursor)
    requires next <= |data| && Standing(data, next, c)
    ensures c.Valid(|Unstuffed(data, 0)|, Marked(data, 0))
  {}

  lemma TakeStands(data: seq<Byte>, next: nat, c: Cursor, n: nat)
    requires next <= |data| && Standing(data, next, c) && n <= c.bits
    ensures Standing(data, next, c.Take(n))
  {
    hide Unstuffed, Marked;
  }

  lemma ByteValid(len: nat, marked: bool, c: Cursor)
    requires c.Valid(len, marked) && c.bits <= 24 && (marked && !c.met ==> c.pos + c.bits + 8 <= 8 * len)
    ensures c.(bits := c.bits + 8).Valid(len, marked)
  {}

  lemma ByteIs(data: seq<Byte>, next: nat, after: nat, c: Cursor, b: Byte)
    requires next <= |data| && Standing(data, next, c) && Follows(data, next, after, c.met, b)
    ensures 0 <= c.bits && SegBits(Unstuffed(data, 0), c.pos + c.bits, 8) == b
  {
    hide SegBits, Unstuffed, Marked;
    ByteAt(Unstuffed(data, 0), RestOf(data, next, c.met), c.pos + c.bits, b);
  }

  /** A byte of the segment has been taken. */
  lemma MoreStands(data: seq<Byte>, next: nat, after: nat, c: Cursor, b: Byte)
    requires next <= |data| && Standing(data, next, c) && c.bits <= 24 && Follows(data, next, after, c.met, b)
    requires RestOf(data, next, c.met) != []
    ensures after <= |data| && Standing(data, after, c.(bits := c.bits + 8))
  {
    hide Unstuffed, Marked, Cursor.Valid, RestOf;
    var u, rest := Unstuffed(data, 0), RestOf(data, next, c.met);
    StandingValid(data, next, c);
    ByteValid(|u|, Marked(data, 0), c);
    SuffixStep(u, rest);
    assert RestOf(data, after, c.met) == rest[1..];
  }

  /** A zero has been made up. */
  lemma ZeroStands(data: seq<Byte>, next: nat, after: nat, c: Cursor, b: Byte)
    requires next <= |data| && Standing(data, next, c) && c.bits <= 24 && Follows(data, next, after, c.met, b)
    requires RestOf(data, next, c.met) == [] && (!c.met ==> !Marked(data, next))
    ensures after <= |data| && Standing(data, after, c.(bits := c.bits + 8))
  {
    hide Unstuffed, Marked, Cursor.Valid;
    StandingValid(data, next, c);
    ByteValid(|Unstuffed(data, 0)|, Marked(data, 0), c);
  }

  lemma ByteStands(data: seq<Byte>, next: nat, after: nat, c: Cursor, b: Byte)
    requires next <= |data| && Standing(data, next, c) && c.bits <= 24 && Follows(data, next, after, c.met, b)
    requires RestOf(data, next, c.met) == [] && !c.met ==> !Marked(data, next)
    ensures after <= |data| && Standing(data, after, c.(bits := c.bits + 8))
  {
    hide Standing, Follows, Marked, RestOf;
    if RestOf(data, next, c.met) == [] {
      ZeroStands(data, next, after, c, b);
    } else {
      MoreStands(data, next, after, c, b);
    }
  }

  lemma MarkerStands(data: seq<Byte>, next: nat, after: nat, c: Cursor)
    requires next <= |data| && after <= |data| && Standing(data, next, c) && !c.met
    requires RestOf(data, next, false) == [] && Marked(data, next)
    ensures Standing(data, after, c.(met := true)) && Marked(data, 0)
    ensures c.pos + c.bits == 8 * |Unstuffed(data, 0)|
  {
    hide Unstuffed, Marked;
  }

  lemma SuffixStep(u: seq<Byte>, rest: seq<Byte>)
    requires 0 < |rest| <= |u| && rest == u[|u| - |rest|..]
    ensures rest[1..] == u[|u| - |rest[1..]|..]
  {}

  /** The byte that comes next in the segment, or a zero past it. */
  lemma ByteAt(u: seq<Byte>, rest: seq<Byte>, at: int, b: Byte)
    requires |rest| <= |u| && rest == u[|u| - |rest|..] && at >= 0
    requires rest == [] ==> at >= 8 * |u| && b == 0
    requires rest != [] ==> at == 8 * (|u| - |rest|) && b == rest[0]
    ensures SegBits(u, at, 8) == b
  {
    hide SegBits;
    if rest == [] {
      SegZero(u, at, 8);
    } else {
      SegByte(u, |u| - |rest|);
    }
  }
}
