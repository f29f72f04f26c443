/**
 The zlib decoder state: `stbi__zbuf`, with its bit buffer, its Huffman decoding and
 its growing output buffer.

 `codeBuffer` holds the next `numBits` bits of the input, first bit lowest.  The ghost
 `pos` is the number of bits handed out so far; everything the methods return is stated
 about the bits of `data` at that position.
 */
module Zbuf {
  import opened Bits
  import opened CanonicalCode
  import opened ZHuffman
  import opened Deflate
  import opened Options
  import opened ZReader
  import opened ZEncode

  const UINT_MAX: nat := 0xFFFF_FFFF

  datatype ZResult =
    | Ok
    | BadHuffmanCode
    | BadCodeLengths
    | BadSizes
    | BadDist
    | UnexpectedEnd
    | OutputBufferLimit
    | OutOfMemory
    // not an error: the doubling loop goes on for ever
    | Hangs
    | ZlibCorrupt
    | ReadPastBuffer
    | BadBlockType

  /** A buffer of `limit` bytes after `k` doublings. */
  function Doubled(limit: nat, k: nat): nat {
    if k == 0 then limit else 2 * Doubled(limit, k - 1)
  }

  /** Doubling reaches every size from a nonempty buffer, and only size zero from an empty one. */
  lemma {:induction false} DoublingReaches(limit: nat, need: nat)
    ensures (exists k: nat :: Doubled(limit, k) >= need) <==> limit > 0 || need == 0
  {
    if limit > 0 || need == 0 {
      DoubledGrows(limit, need);
    }
    forall k: nat | limit == 0
      ensures Doubled(limit, k) == 0
    {
      DoubledGrows(limit, k);
    }
  }

  lemma {:induction false} DoubledGrows(limit: nat, k: nat)
    ensures if limit == 0 then Doubled(limit, k) == 0 else Doubled(limit, k) >= k + 1
  {
    if k > 0 {
      DoubledGrows(limit, k - 1);
    }
  }

  /** Reversing the low sixteen bits of the buffer gives the next sixteen bits of input. */
  lemma WindowIsInput(data: seq<Byte>, p: nat, n: nat, w: nat)
    requires n >= w
    ensures Rev(BitsLsb(data, p, n), w) == BitsMsb(data, p, w)
  {
    hide BitsLsb, BitsMsb, Rev, Shl, Low;
    BitsLsbSplit(data, p, w, n - w);
    Compose(BitsLsb(data, p + w, n - w), BitsLsb(data, p, w), w);
    RevLow(BitsLsb(data, p, n), w);
    RevBits(data, p, w);
  }

  lemma CopyDone(out: seq<Byte>, dist: nat)
    requires 1 <= dist <= |out|
    ensures Copy(out, dist, 0) == out
  {}

  /** Or-ing the next byte above the buffered bits extends the buffer by eight bits. */
  lemma AppendByte(data: seq<Byte>, p: nat, n: nat, next: nat)
    requires next <= |data| && n <= 24
    requires if next < |data| then p + n == 8 * next else p + n >= 8 * next
    ensures var b := if next < |data| then data[next] else 0;
      BitOr(BitsLsb(data, p, n), Shl(b, n)) == BitsLsb(data, p, n + 8)
  {
    hide BitsLsb, Shl, Pow2, BitOr;
    BitsLsbSplit(data, p, n, 8);
    if next < |data| {
      ByteBits(data, next);
      BitOrDisjoint(BitsLsb(data, p, n), data[next], n);
    } else {
      ZeroBits(data, p + n, 8);
      BitOrDisjoint(BitsLsb(data, p, n), 0, n);
    }
  }

  /** Masking and shifting splits the buffered bits. */
  lemma TakeBits(data: seq<Byte>, p: nat, have: nat, n: nat)
    requires n <= have
    ensures BitAnd(BitsLsb(data, p, have), Shl(1, n) - 1) == BitsLsb(data, p, n)
    ensures Shr(BitsLsb(data, p, have), n) == BitsLsb(data, p + n, have - n)
  {
    hide BitsLsb, Shl, Shr, Pow2, BitAnd, Low;
    ShlOne(n);
    BitAndLow(BitsLsb(data, p, have), n);
    BitsLsbSplit(data, p, n, have - n);
    Compose(BitsLsb(data, p + n, have - n), BitsLsb(data, p, n), n);
  }

  /** Past the input, claiming more bits claims zeros. */
  lemma PadZeros(data: seq<Byte>, p: nat, n: nat, m: nat)
    requires p + n >= 8 * |data|
    ensures BitsLsb(data, p, n + m) == BitsLsb(data, p, n)
  {
    hide BitsLsb, Shl;
    BitsLsbSplit(data, p, n, m);
    ZeroBits(data, p + n, m);
    ShlZero(n);
  }

  lemma SixteenBits(k: nat)
    requires k < Pow2(16)
    ensures k < 0x10000
  {
    hide Pow2;
    Pow2Sixteen();
  }

  lemma CodewordsAreMatches(lens: seq<nat>, data: seq<Byte>, p: nat, w: nat)
    requires LengthsAtMost(lens, w)
    ensures forall i: nat :: CodewordAt(lens, i, data, p) <==> Matches(lens, i, BitsMsb(data, p, w), w)
  {
    hide BitsMsb, Shr, CodeOf;
    forall i: nat
      ensures CodewordAt(lens, i, data, p) <==> Matches(lens, i, BitsMsb(data, p, w), w)
    {
      if i < |lens| {
        CodewordIsMatch(lens, i, data, p, w);
      }
    }
  }

  lemma FastHitLength(lens: seq<nat>, i: nat, t: nat)
    requires FastHit(lens, i, t)
    ensures i < |lens| && 0 < lens[i] <= ZFAST_BITS
  {}

  /** A zero entry records that no short codeword starts the index. */
  lemma FastZero(lens: seq<nat>, t: nat, v: nat)
    requires FastEntry(lens, |lens|, t, v) && v == 0
    ensures forall i: nat :: i < |lens| ==> !FastHit(lens, i, t)
  {
    hide Low, Rev, CodeOf;
  }

  /** A nonzero entry names a symbol that hits the index, and its length. */
  lemma FastNonzero(lens: seq<nat>, t: nat, v: nat) returns (i: nat)
    requires FastEntry(lens, |lens|, t, v) && v != 0 && |lens| <= ZNSYMS
    ensures FastHit(lens, i, t) && Shr(v, 9) == lens[i] && BitAnd(v, 511) == i
  {
    hide FastHit, Shl, Shr, BitAnd, Low, Pow2;
    i :| 0 <= i < |lens| && FastHit(lens, i, t) && v == Shl(lens[i], 9) + i;
    Pow2Nine();
    Compose(lens[i], i, 9);
    BitAndLow(v, 9);
  }

  /** A nonzero entry decodes to the symbol whose codeword is next. */
  lemma FastDecodes(lens: seq<nat>, data: seq<Byte>, p: nat, n: nat, v: nat, w: nat) returns (i: nat)
    requires n >= w == 16 && |lens| <= ZNSYMS && LengthsAtMost(lens, 15) && KraftHolds(lens, 15)
    requires v != 0 && FastEntry(lens, |lens|, Low(BitsLsb(data, p, n), ZFAST_BITS), v)
    ensures CodewordAt(lens, i, data, p) && Shr(v, 9) == lens[i] <= ZFAST_BITS && BitAnd(v, 511) == i
  {
    hide BitsLsb, BitsMsb, Rev, Shl, Shr, Low, Pow2, BitAnd, CodeOf, KraftHolds, FastHit, FastEntry;
    var buffer := BitsLsb(data, p, n);
    var t := Low(buffer, ZFAST_BITS);
    i := FastNonzero(lens, t, v);
    FastHitLength(lens, i, t);
    CodeFits(lens, i, 15);
    FastHitIsMatch(lens, i, buffer, w);
    WindowIsInput(data, p, n, w);
    CodewordIsMatch(lens, i, data, p, w);
  }

  lemma NoBits(data: seq<Byte>, p: nat)
    ensures BitsLsb(data, p, 0) == 0
  {}

  lemma ExtraBound(data: seq<Byte>, p: nat, n: nat)
    requires n <= 5
    ensures BitsLsb(data, p, n) < 32
  {
    hide Pow2, BitsLsb;
    Pow2Monotone(n, 5);
    Pow2Table();
  }

  lemma CopyLength(out: seq<Byte>, dist: nat, len: nat)
    requires 1 <= dist <= |out|
    ensures |Copy(out, dist, len)| == |out| + len
  {}

  /** The effect of a match once its length and distance are known. */
  ghost function MatchOutcome(p: nat, out: seq<Byte>, d: nat, len: nat): Outcome
    requires d >= 1
  {
    if d > |out| then BadDistance else More(State(p, Copy(out, d, len)))
  }

  /** The header of a dynamic block: at most 288 + 32 lengths, 19 of them coded first. */
  lemma HeaderBounds(data: seq<Byte>, p: nat)
    ensures BitsLsb(data, p, 5) < 32 && BitsLsb(data, p + 5, 5) < 32 && BitsLsb(data, p + 10, 4) < 16
  {
    Pow2Table();
  }

  /** Dropping the odd bits of the buffer aligns the position. */
  lemma AlignedIs(p: nat, n: int)
    requires n >= 0 && (p + n) % 8 == 0
    ensures p + n % 8 == Aligned(p) && n % 8 <= 7 && Aligned(p) % 8 == 0
  {}

  lemma AlignedBounds(p: nat)
    ensures Aligned(p) % 8 == 0 && p <= Aligned(p) < p + 8
  {}

  lemma StoredFits(data: seq<Byte>, q: nat)
    ensures BitsLsb(data, q, 16) < 0x10000
  {
    hide Pow2;
    Pow2Sixteen();
  }

  lemma BlockHeaderBits(data: seq<Byte>, p: nat)
    ensures BitsLsb(data, p, 1) < 2 && BitsLsb(data, p + 1, 2) < 4
    ensures p >= 8 * |data| ==> BitsLsb(data, p + 1, 2) == 0
  {
    if p >= 8 * |data| {
      ZeroBits(data, p + 1, 2);
    }
    Pow2Table();
  }

  lemma StoredAdvances(data: seq<Byte>, p: nat, out: seq<Byte>, st: State, ok: bool)
    requires ok ==> Stored(data, p, out, st)
    ensures ok ==> st.pos > p
  {}

  lemma WholeBytes(p: nat, n: int)
    requires n >= 0 && (p + n) % 8 == 0 && p % 8 == 0
    ensures n % 8 == 0
  {}

  lemma ByteMask(data: seq<Byte>, p: nat, v: nat)
    requires BitAnd(v, Shl(1, 8) - 1) == BitsLsb(data, p, 8)
    ensures BitAnd(v, 255) == BitsLsb(data, p, 8) < 256
  {
    hide BitsLsb, BitAnd;
    ShlByte(1);
  }

  /** A byte read past an empty bit buffer is the next eight bits. */
  lemma FreshByte(data: seq<Byte>, p: nat, next: nat)
    requires next <= |data| && p % 8 == 0
    requires if next < |data| then p == 8 * next else p >= 8 * next
    ensures BitsLsb(data, p, 8) == if next < |data| then data[next] else 0
  {
    hide BitsLsb;
    ByteBits(data, p / 8);
  }

  lemma TwoBytes(data: seq<Byte>, q: nat)
    ensures BitsLsb(data, q, 16) == BitsLsb(data, q + 8, 8) * 256 + BitsLsb(data, q, 8)
  {
    hide BitsLsb, Shl;
    BitsLsbSplit(data, q, 8, 8);
    ShlByte(BitsLsb(data, q + 8, 8));
  }

  /** A length and its complement that agree are both real input. */
  lemma StoredInside(data: seq<Byte>, q: nat, next: nat)
    requires q % 8 == 0 && next <= |data|
    requires if next < |data| then q + 32 == 8 * next else q + 32 >= 8 * next
    requires BitsLsb(data, q + 16, 16) == 0xFFFF - BitsLsb(data, q, 16)
    requires next + BitsLsb(data, q, 16) <= |data|
    ensures next == q / 8 + 4
  {
    hide BitsLsb;
    TwoBytes(data, q + 16);
    ByteBits(data, q / 8 + 3);
    ByteBits(data, q / 8 + 2);
  }

  lemma NoLengths()
    ensures LengthsAtMost([], 15)
  {}

  lemma LengthItemsNext(cl: seq<nat>, data: seq<Byte>, ntot: nat, f: Reader, lens: seq<nat>)
    requires |lens| < ntot
    ensures var item, q := LengthItem(cl, data, ntot, f.pos, lens), ItemRead(cl, data, f);
      if item.BadLengths? then
        LengthItems(cl, data, ntot, f.pos, lens) == BadLengths
      else
        && |item.lens| <= ntot
        && LengthItems(cl, data, ntot, f.pos, lens) == LengthItems(cl, data, ntot, item.pos, item.lens)
        && ItemsRead(cl, data, ntot, f, lens) == if q.Some? then ItemsRead(cl, data, ntot, q.value, item.lens) else None
  {
    hide LengthItem, ItemRead;
    ItemGrows(cl, data, ntot, f.pos, lens);
  }

  lemma LengthItemsDone(cl: seq<nat>, data: seq<Byte>, ntot: nat, f: Reader, lens: seq<nat>)
    requires |lens| == ntot
    ensures LengthItems(cl, data, ntot, f.pos, lens) == Lengths(f.pos, lens)
    ensures ItemsRead(cl, data, ntot, f, lens) == Some(f)
  {}

  lemma TokensNone(lit: seq<nat>, dist: seq<nat>, data: seq<Byte>, f: Reader, st: State)
    ensures Tokens(lit, dist, data, st, 0) == More(st) && TokensRead(lit, dist, data, f, 0) == Some(f)
  {}

  lemma TokensNext(lit: seq<nat>, dist: seq<nat>, data: seq<Byte>, f: Reader, st: State, n: nat)
    requires Tokens(lit, dist, data, st, n).More? && TokensRead(lit, dist, data, f, n).Some?
    ensures Tokens(lit, dist, data, st, n + 1) == Token(lit, dist, data, Tokens(lit, dist, data, st, n).st)
    ensures TokensRead(lit, dist, data, f, n + 1)
      == TokenRead(lit, dist, data, TokensRead(lit, dist, data, f, n).value)
  {}

  /** A decoder's answer is the specified symbol, unless the reader gives up. */
  lemma DecodedIs(lens: seq<nat>, data: seq<Byte>, f: Reader, r: int)
    requires f.Valid(|data|)
    requires r >= 0 ==> CodewordAt(lens, r, data, f.pos) && !f.Spent()
    requires r < 0 ==> NoCodewordAt(lens, data, f.pos) || f.Spent()
    ensures r >= 0 ==> SymbolAt(lens, data, f.pos) == r
    ensures var sym := SymbolAt(lens, data, f.pos); r < 0 && sym >= 0 ==> Code(|data|, f, lens[sym]).None?
  {
    hide CodewordAt;
    var sym := SymbolAt(lens, data, f.pos);
    if r >= 0 {
      CodewordUnique(lens, r, sym, data, f.pos);
    }
  }

  /** `memset` on code lengths. */
  method Memset(a: array<nat>, from: nat, fill: nat, count: nat)
    requires from + count <= a.Length
    modifies a
    ensures a[..] == old(a[..from]) + Repeat(fill, count) + old(a[from + count..])
  {
    forall i | from <= i < from + count {
      a[i] := fill;
    }
  }

  /** Two tables of one decoder do not share arrays. */
  ghost predicate Separate(a: ZTable, b: ZTable) {
    && a.fast != b.fast && a.maxcode != b.maxcode
    && {a.firstcode, a.firstsymbol} !! {b.firstcode, b.firstsymbol}
    && {a.size, a.value} !! {b.size, b.value}
  }

  class ZBuf {
    const data: seq<Byte>
    var next: nat
    var numBits: int
    var hitZeofOnce: bool
    var codeBuffer: nat
    ghost var pos: nat

    var zoutStart: array<Byte>
    var zout: nat
    const zExpandable: bool
    // the largest block the allocator can provide
    const heapLimit: nat

    const zLength: ZTable
    const zDistance: ZTable

    constructor (data: seq<Byte>, initialSize: nat, expandable: bool, heapLimit: nat)
      ensures this.data == data && zExpandable == expandable && this.heapLimit == heapLimit
      ensures ReaderValid() && pos == 0
      ensures fresh(zoutStart) && zoutStart.Length == initialSize && zout == 0
      ensures TablesValid() && fresh(TableArrays())
    {
      this.data := data;
      next, numBits, hitZeofOnce, codeBuffer, pos := 0, 0, false, 0, 0;
      zoutStart := new Byte[initialSize];
      zout := 0;
      zExpandable := expandable;
      this.heapLimit := heapLimit;
      zLength := new ZTable();
      zDistance := new ZTable();
    }

    ghost predicate TablesValid() {
      zLength.Shape() && zDistance.Shape() && Separate(zLength, zDistance)
    }

    ghost function TableArrays(): set<object> {
      {zLength.fast, zLength.firstcode, zLength.maxcode, zLength.firstsymbol, zLength.size, zLength.value,
       zDistance.fast, zDistance.firstcode, zDistance.maxcode, zDistance.firstsymbol, zDistance.size,
       zDistance.value}
    }

    // ---------------------------------------------------------------- input

    /** How far the input has been read. */
    ghost function Here(): Reader
      reads this
    {
      Reader(pos, next, numBits, hitZeofOnce)
    }

    /** The bit buffer holds the bits at `pos`; past the input they are zero. */
    ghost predicate ReaderValid()
      reads this
    {
      && Here().Valid(|data|)
      && codeBuffer == BitsLsb(data, pos, numBits)
    }

    /** One round of `stbi__fill_bits`: the guard on `codeBuffer` never fires. */
    method FillByte()
      requires ReaderValid() && numBits <= 24
      modifies this`next, this`numBits, this`codeBuffer
      ensures ReaderValid() && Here() == Rounds(|data|, old(Here()), 1)
    {
      hide BitsLsb, Shl, Pow2, BitOr, Low;
      ShlOne(numBits);
      if codeBuffer >= Shl(1, numBits) {
        assert false;
      }
      var b: Byte := 0;
      AppendByte(data, pos, numBits, next);
      if next < |data| {
        b := data[next];
        next := next + 1;
      }
      codeBuffer := BitOr(codeBuffer, Shl(b, numBits));
      numBits := numBits + 8;
    }

    /** `stbi__fill_bits`. */
    method FillBits()
      requires ReaderValid() && numBits <= 24
      modifies this`next, this`numBits, this`codeBuffer
      ensures ReaderValid() && numBits > 24
      ensures Here() == Filled(|data|, old(Here()))
    {
      hide BitsLsb;
      var more := true;
      ghost var k := 0;
      while more
        invariant ReaderValid()
        invariant Here() == Rounds(|data|, old(Here()), k)
        invariant if more then numBits <= 24 else 24 < numBits <= 32
        invariant next <= |data|
        decreases 33 - numBits
      {
        FillByte();
        k := k + 1;
        more := numBits <= 24;
      }
    }

    /** `stbi__zreceive`: the next `n` bits, lowest first. */
    method Receive(n: nat) returns (k: nat)
      requires ReaderValid() && n <= 16
      modifies this`next, this`numBits, this`codeBuffer, this`pos
      ensures ReaderValid()
      ensures k == BitsLsb(data, old(pos), n) && pos == old(pos) + n
      ensures Here() == Field(|data|, old(Here()), n)
    {
      hide BitsLsb, Shl, Shr, Pow2, BitAnd, Low;
      if numBits < n {
        FillBits();
      }
      TakeBits(data, pos, numBits, n);
      k := BitAnd(codeBuffer, Shl(1, n) - 1);
      codeBuffer := Shr(codeBuffer, n);
      numBits := numBits - n;
      pos := pos + n;
    }

    /** `stbi__zhuffman_decode_slowpath`, reached when the fast table has no entry. */
    method HuffmanDecodeSlowpath(z: ZTable, ghost lens: seq<nat>) returns (r: int)
      requires ReaderValid() && numBits >= 16
      requires z.Describes(lens)
      requires z.fast[Low(codeBuffer, ZFAST_BITS)] == 0
      modifies this`numBits, this`codeBuffer, this`pos
      ensures ReaderValid()
      ensures r >= 0 ==> CodewordAt(lens, r, data, old(pos))
      ensures r >= 0 ==> pos == old(pos) + lens[r] && numBits == old(numBits) - lens[r]
      ensures r < 0 ==> r == -1 && pos == old(pos) && NoCodewordAt(lens, data, pos)
    {
      hide BitsLsb, BitsMsb, Rev, Shl, Shr, Low, Pow2, EndCode, FirstCode, Shorter, Count, CodeOf, KraftHolds,
        FastHit, FastEntry, BitReverse, Rank;
      var k := BitReverse(codeBuffer, 16);
      BitReverseShort(codeBuffer, 16);
      WindowIsInput(data, pos, numBits, 16);
      CodewordsAreMatches(lens, data, pos, 16);
      Pow2Nine();
      FastZero(lens, Low(codeBuffer, ZFAST_BITS), z.fast[Low(codeBuffer, ZFAST_BITS)]);
      FastMiss(lens, codeBuffer, 16);
      SixteenBits(k);
      var s := ZFAST_BITS + 1;
      while k >= z.maxcode[s]
        invariant ZFAST_BITS < s <= 16
        invariant k >= z.maxcode[s - 1]
        decreases 16 - s
      {
        s := s + 1;
      }
      AboveEnd(lens, k, s - 1, 16);
      if s >= 16 {
        return -1;
      }
      ShrInterval(k, 16 - s, EndCode(lens, s));
      ghost var i := SlowHit(lens, k, s, 16);
      var b := Shr(k, 16 - s) - z.firstcode[s] + z.firstsymbol[s];
      if b >= ZNSYMS {
        return -1;
      }
      if z.size[b] != s {
        return -1;
      }
      TakeBits(data, pos, numBits, s);
      codeBuffer := Shr(codeBuffer, s);
      numBits := numBits - s;
      pos := pos + s;
      r := z.value[b];
    }

    /** The refill of `stbi__zhuffman_decode`: the first shortfall at the end adds sixteen zeros. */
    method Refill() returns (ok: bool)
      requires ReaderValid()
      modifies this`next, this`numBits, this`codeBuffer, this`hitZeofOnce
      ensures ReaderValid()
      ensures Refilled(|data|, old(Here())) == if ok then Some(Here()) else None
      ensures ok ==> numBits >= 16
    {
      hide BitsLsb;
      ok := true;
      if numBits < 16 {
        if next >= |data| {
          if !hitZeofOnce {
            hitZeofOnce := true;
            PadZeros(data, pos, numBits, 16);
            numBits := numBits + 16;
          } else {
            return false;
          }
        } else {
          FillBits();
        }
      }
    }

    /** The fast path: the table entry names the symbol and how many bits to drop. */
    method HuffmanDecodeFast(z: ZTable, b: nat, ghost lens: seq<nat>) returns (r: nat)
      requires ReaderValid() && numBits >= 16 && z.Describes(lens)
      requires b == z.fast[Low(codeBuffer, ZFAST_BITS)] != 0
      modifies this`numBits, this`codeBuffer, this`pos
      ensures ReaderValid()
      ensures CodewordAt(lens, r, data, old(pos))
      ensures pos == old(pos) + lens[r] && numBits == old(numBits) - lens[r]
    {
      hide BitsLsb, BitsMsb, Shl, Shr, Low, Pow2, BitAnd, CodeOf, KraftHolds, FastEntry;
      Pow2Nine();
      ghost var t := Low(codeBuffer, ZFAST_BITS);
      assert z.fast[t] == b && FastEntry(lens, |lens|, t, b);
      ghost var i := FastDecodes(lens, data, pos, numBits, b, 16);
      var s := Shr(b, 9);
      TakeBits(data, pos, numBits, s);
      codeBuffer := Shr(codeBuffer, s);
      numBits := numBits - s;
      pos := pos + s;
      r := BitAnd(b, 511);
    }

    /** `stbi__zhuffman_decode`: the symbol whose codeword is next, unless the sixteen zeros have been used. */
    method HuffmanDecode(z: ZTable, ghost lens: seq<nat>) returns (r: int)
      requires ReaderValid() && z.Describes(lens)
      modifies this`next, this`numBits, this`codeBuffer, this`hitZeofOnce, this`pos
      ensures ReaderValid()
      ensures r >= 0 ==> CodewordAt(lens, r, data, old(pos)) && Code(|data|, old(Here()), lens[r]) == Some(Here())
      ensures r < 0 <==> NoCodewordAt(lens, data, old(pos)) || old(Here()).Spent()
      ensures r < 0 ==> r == -1 && pos == old(pos)
      ensures pos >= old(pos)
    {
      hide BitsLsb, BitsMsb, Shl, Shr, Low, Pow2, BitAnd, CodeOf, KraftHolds, FastEntry, Reader.Valid,
        ZTable.LengthsDone, ZTable.SymbolsDone, ZTable.FastDone;
      GivesUp(|data|, Here(), 0);
      var ok := Refill();
      if !ok {
        return -1;
      }
      Pow2Nine();
      var t := Low(codeBuffer, ZFAST_BITS);
      var b := z.fast[t];
      if b != 0 {
        r := HuffmanDecodeFast(z, b, lens);
        return;
      }
      r := HuffmanDecodeSlowpath(z, lens);
    }

    // --------------------------------------------------------------- output

    ghost predicate OutputValid()
      reads this
    {
      zout <= zoutStart.Length <= UINT_MAX
    }

    /** The bytes written so far. */
    ghost function Output(): seq<Byte>
      reads this, zoutStart
      requires OutputValid()
    {
      zoutStart[..zout]
    }

    /**
     `r` says that the output cannot grow to `len` bytes, and rightly: a fixed buffer is
     shorter, or doubling cannot reach a size that the heap and a 32-bit count allow, or
     can reach none because it starts from nothing.
     */
    ghost predicate NoRoom(r: ZResult, len: nat)
      reads this
    {
      match r
      case OutputBufferLimit => !zExpandable && len > zoutStart.Length
      case OutOfMemory => zExpandable && (2 * len > heapLimit || 2 * len > UINT_MAX)
      case Hangs => zExpandable && zoutStart.Length == 0 && len > 0
      case _ => false
    }

    /**
     `stbi__zexpand`: make room for `n` more bytes.  From an empty buffer the doubling does
     not end (`DoublingReaches`); that is the outcome `Hangs`.
     */
    method Expand(n: nat) returns (r: ZResult)
      requires OutputValid() && n <= UINT_MAX
      modifies this`zoutStart
      ensures OutputValid() && Output() == old(Output())
      ensures r == Ok ==> zExpandable && fresh(zoutStart) && zout + n <= zoutStart.Length
      ensures r != Ok ==> zoutStart == old(zoutStart)
      ensures r != Ok && zout + n > zoutStart.Length ==> NoRoom(r, zout + n)
      ensures r == Hangs <==> zExpandable && n > 0 && zoutStart.Length == 0
    {
      if !zExpandable {
        return OutputBufferLimit;
      }
      var cur := zout;
      var limit := zoutStart.Length;
      if UINT_MAX - cur < n {
        return OutOfMemory;
      }
      if limit == 0 && n > 0 {
        return Hangs;
      }
      while cur + n > limit
        invariant zoutStart.Length <= limit <= UINT_MAX && (limit == 0 ==> cur + n == 0)
        invariant limit == zoutStart.Length || limit < 2 * (cur + n)
        decreases UINT_MAX - limit
      {
        if limit > UINT_MAX / 2 {
          return OutOfMemory;
        }
        limit := limit * 2;
      }
      if limit > heapLimit {
        return OutOfMemory;
      }
      var q := new Byte[limit];
      forall i | 0 <= i < zoutStart.Length {
        q[i] := zoutStart[i];
      }
      zoutStart := q;
      assert zoutStart[..zout] == old(zoutStart[..zout]);
      r := Ok;
    }

    /** `*zout++ = v`. */
    method Put(v: Byte)
      requires OutputValid() && zout < zoutStart.Length
      modifies this`zout, zoutStart
      ensures OutputValid() && Output() == old(Output()) + [v]
      ensures zout == old(zout) + 1
    {
      zoutStart[zout] := v;
      zout := zout + 1;
    }

    /** The two copy loops of a match: a run of one byte, or byte by byte from `p`. */
    method CopyMatch(dist: nat, len: nat)
      requires OutputValid() && 1 <= dist <= zout && zout + len <= zoutStart.Length
      modifies this`zout, zoutStart
      ensures OutputValid() && Output() == Copy(old(Output()), dist, len)
    {
      hide Copy;
      ghost var goal := Copy(Output(), dist, len);
      var p := zout - dist;
      var n := len;
      if dist == 1 {
        var v := zoutStart[p];
        while n != 0
          invariant 0 <= n <= len && OutputValid() && zout + n == old(zout) + len
          invariant zout >= 1 && Output()[zout - 1] == v
          invariant Copy(Output(), 1, n) == goal
        {
          CopyStep(Output(), 1, n);
          Put(v);
          n := n - 1;
        }
      } else {
        while n != 0
          invariant 0 <= n <= len && OutputValid() && zout + n == old(zout) + len
          invariant p == zout - dist
          invariant Copy(Output(), dist, n) == goal
        {
          CopyStep(Output(), dist, n);
          assert Output()[zout - dist] == zoutStart[p];
          Put(zoutStart[p]);
          p := p + 1;
          n := n - 1;
        }
      }
      CopyDone(Output(), dist);
    }


    // ----------------------------------------------------- Huffman-coded blocks

    /** The length and distance of a match token with length code `z`. */
    method ReadMatch(z: nat, ghost dist: seq<nat>, ghost out: seq<Byte>) returns (r: ZResult, len: nat, d: nat)
      requires ReaderValid() && z < 29 && zDistance.Describes(dist)
      modifies this`next, this`numBits, this`codeBuffer, this`hitZeofOnce, this`pos
      ensures ReaderValid() && pos >= old(pos)
      ensures r == Ok || r == BadHuffmanCode
      ensures d >= 1 && 3 <= len <= 300
      ensures r == Ok ==> MatchToken(dist, data, old(pos), out, z) == MatchOutcome(pos, out, d, len)
      ensures MatchRead(dist, data, old(Here()), z) == if r == Ok then Some(Here()) else None
    {
      hide SymbolAt, Copy, BitsLsb, CodewordAt, NoCodewordAt, Pow2, LengthBase, LengthExtra, DistBase,
        DistExtra, ZTable.Describes, Field, Code;
      d := 1;
      len := LengthBase(z);
      NoBits(data, pos);
      if LengthExtra(z) != 0 {
        var e := Receive(LengthExtra(z));
        ExtraBound(data, old(pos), LengthExtra(z));
        len := len + e;
      }
      ghost var f := Here();
      var sym := HuffmanDecode(zDistance, dist);
      DecodedIs(dist, data, f, sym);
      if sym < 0 || sym >= 30 {
        return BadHuffmanCode, len, d;
      }
      d := DistBase(sym);
      NoBits(data, pos);
      if DistExtra(sym) != 0 {
        var e := Receive(DistExtra(sym));
        d := d + e;
      }
      r := Ok;
    }

    /** A match token: its length and distance, the room for it, and the copy. */
    method ParseMatch(z: nat, ghost dist: seq<nat>) returns (r: ZResult)
      requires ReaderValid() && OutputValid()
      requires z < 29 && zDistance.Describes(dist)
      modifies this`next, this`numBits, this`codeBuffer, this`hitZeofOnce, this`pos
      modifies this`zout, this`zoutStart, zoutStart
      ensures ReaderValid() && OutputValid()
      ensures zoutStart == old(zoutStart) || (zExpandable && fresh(zoutStart))
      ensures r == Ok ==> zout > old(zout)
      ensures pos >= old(pos)
      ensures TokenResult(
        MatchToken(dist, data, old(pos), old(Output()), z), MatchRead(dist, data, old(Here()), z), r, true)
    {
      hide Copy, MatchToken, MatchRead, ZTable.Describes, BitsLsb;
      ghost var out := Output();
      var len, d;
      r, len, d := ReadMatch(z, dist, out);
      if r != Ok {
        return;
      }
      if zout < d {
        return BadDist;
      }
      CopyLength(out, d, len);
      if len > zoutStart.Length - zout {
        r := Expand(len);
        if r != Ok {
          return;
        }
      }
      CopyMatch(d, len);
    }

    /** One round of the loop of `stbi__parse_huffman_block`. */
    method ParseToken(ghost lit: seq<nat>, ghost dist: seq<nat>) returns (r: ZResult, more: bool)
      requires ReaderValid() && OutputValid()
      requires zLength.Describes(lit) && zDistance.Describes(dist)
      modifies this`next, this`numBits, this`codeBuffer, this`hitZeofOnce, this`pos
      modifies this`zout, this`zoutStart, zoutStart
      ensures ReaderValid() && OutputValid()
      ensures zoutStart == old(zoutStart) || (zExpandable && fresh(zoutStart))
      ensures r == Ok && more ==> zout > old(zout)
      ensures pos >= old(pos)
      ensures TokenResult(
        Token(lit, dist, data, State(old(pos), old(Output()))), TokenRead(lit, dist, data, old(Here())), r, more)
    {
      hide SymbolAt, BitsLsb, MatchToken, MatchRead, CodewordAt, NoCodewordAt, ZTable.Describes, Code;
      ghost var f := Here();
      more := true;
      r := Ok;
      var z := HuffmanDecode(zLength, lit);
      DecodedIs(lit, data, f, z);
      if z < 256 {
        if z < 0 {
          return BadHuffmanCode, more;
        }
        if zout >= zoutStart.Length {
          r := Expand(1);
          if r != Ok {
            return;
          }
        }
        Put(z);
      } else if z == 256 {
        more := false;
        if hitZeofOnce && numBits < 16 {
          r := UnexpectedEnd;
        }
      } else if z >= 286 {
        r := BadHuffmanCode;
      } else {
        r := ParseMatch(z - 257, dist);
      }
    }

    /** What the outcome of one round says about its token `t` and the reading `q` of it. */
    ghost predicate TokenResult(t: Outcome, q: Option<Reader>, r: ZResult, more: bool)
      reads this, zoutStart
      requires OutputValid()
    {
      match r
      case Ok =>
        && q == Some(Here())
        && if more then t == More(State(pos, Output())) else t == Done(State(pos, Output())) && !Here().Spent()
      case UnexpectedEnd => q == Some(Here()) && t == Done(State(pos, Output())) && Here().Spent()
      case BadHuffmanCode => q == None
      case BadDist => t == BadDistance
      case OutputBufferLimit => t.More? && NoRoom(r, |t.st.out|)
      case OutOfMemory => t.More? && NoRoom(r, |t.st.out|)
      case Hangs => t.More? && NoRoom(r, |t.st.out|)
      case _ => false
    }

    /**
     `stbi__parse_huffman_block`: after `n` tokens the next one ends the block, and on
     success the output is what they all append and none of the sixteen zeros are used; on
     failure that token cannot be read, or ends the block among those zeros, or reaches back
     too far, or does not fit the output buffer.
     */
    method ParseHuffmanBlock(ghost lit: seq<nat>, ghost dist: seq<nat>) returns (r: ZResult, ghost n: nat)
      requires ReaderValid() && OutputValid()
      requires zLength.Describes(lit) && zDistance.Describes(dist)
      modifies this`next, this`numBits, this`codeBuffer, this`hitZeofOnce, this`pos
      modifies this`zout, this`zoutStart, zoutStart
      ensures ReaderValid() && OutputValid()
      ensures zoutStart == old(zoutStart) || (zExpandable && fresh(zoutStart))
      ensures pos >= old(pos)
      ensures BlockResult(lit, dist, old(Here()), old(Output()), r, n)
    {
      hide Token, TokenRead, Tokens, TokensRead, ZTable.Describes, BitsLsb;
      ghost var first, start := Here(), State(pos, Output());
      n := 0;
      TokensNone(lit, dist, data, first, start);
      while true
        invariant ReaderValid() && OutputValid()
        invariant zLength.Describes(lit) && zDistance.Describes(dist)
        invariant zoutStart == old(zoutStart) || (zExpandable && fresh(zoutStart))
        invariant pos >= old(pos)
        invariant Tokens(lit, dist, data, start, n) == More(State(pos, Output()))
        invariant TokensRead(lit, dist, data, first, n) == Some(Here())
        decreases UINT_MAX - zout
      {
        TokensNext(lit, dist, data, first, start, n);
        var more;
        r, more := ParseToken(lit, dist);
        if r != Ok || !more {
          return;
        }
        n := n + 1;
      }
    }

    /** Token `n` is the one that ended the block or the decoding of it. */
    ghost predicate BlockResult(lit: seq<nat>, dist: seq<nat>, f: Reader, out: seq<Byte>, r: ZResult, n: nat)
      reads this, zoutStart
      requires OutputValid()
    {
      && Tokens(lit, dist, data, State(f.pos, out), n).More?
      && TokenResult(Tokens(lit, dist, data, State(f.pos, out), n + 1), TokensRead(lit, dist, data, f, n + 1), r, false)
    }

    // ------------------------------------------------------- dynamic code lengths

    /** The loop that reads the lengths of the code-length code. */
    method ReadCodeLengthCode(hclen: nat) returns (sizes: array<nat>)
      requires ReaderValid() && hclen <= 19
      modifies this`next, this`numBits, this`codeBuffer, this`pos
      ensures ReaderValid() && pos == old(pos) + 3 * hclen
      ensures Here() == Sizes(|data|, old(Here()), hclen)
      ensures fresh(sizes) && sizes[..] == CodeLengthCode(data, old(pos), hclen)
      ensures LengthsAtMost(sizes[..], 7)
    {
      hide BitsLsb, Dezigzag, SentAt, Pow2, Field;
      sizes := new nat[19](_ => 0);
      var i := 0;
      while i < hclen
        invariant 0 <= i <= hclen
        invariant ReaderValid() && pos == old(pos) + 3 * i && Here() == Sizes(|data|, old(Here()), i)
        invariant forall s: nat :: s < 19 ==> 
          sizes[s] <= 7 &&
          sizes[s] == if SentAt(s) < i then BitsLsb(data, old(pos) + 3 * SentAt(s), 3) else 0
      {
        SentAtDezigzag(i);
        ExtraBound(data, pos, 3);
        Pow2Table();
        var s := Receive(3);
        sizes[Dezigzag(i)] := s;
        i := i + 1;
      }
    }

    /** The extra bits of a repeat code. */
    method ReceiveRepeat(c: nat) returns (count: nat)
      requires ReaderValid() && 16 <= c <= 18
      modifies this`next, this`numBits, this`codeBuffer, this`pos
      ensures ReaderValid() && pos == old(pos) + RepeatExtra(c)
      ensures count == RepeatBase(c) + BitsLsb(data, old(pos), RepeatExtra(c))
      ensures Here() == Field(|data|, old(Here()), RepeatExtra(c))
    {
      hide BitsLsb, Field;
      if c == 16 {
        count := Receive(2);
        count := count + 3;
      } else if c == 17 {
        count := Receive(3);
        count := count + 3;
      } else {
        count := Receive(7);
        count := count + 11;
      }
    }

    /** One round of the loop that expands run-length coded code lengths. */
    method ExpandItem(z: ZTable, ghost cl: seq<nat>, ntot: nat, lencodes: array<nat>, n: nat)
      returns (ok: bool, m: nat)
      requires ReaderValid() && z.Describes(cl) && n < ntot <= 320
      requires lencodes.Length == 286 + 32 + 137 && LengthsAtMost(lencodes[..n], 15)
      modifies this`next, this`numBits, this`codeBuffer, this`hitZeofOnce, this`pos, lencodes
      ensures ReaderValid() && pos >= old(pos)
      ensures ok ==> n < m <= ntot && LengthsAtMost(lencodes[..m], 15)
      ensures ok ==> LengthItem(cl, data, ntot, old(pos), old(lencodes[..n])) == Lengths(pos, lencodes[..m])
      ensures ok ==> ItemRead(cl, data, old(Here())) == Some(Here())
      ensures !ok ==>
        LengthItem(cl, data, ntot, old(pos), old(lencodes[..n])) == BadLengths || ItemRead(cl, data, old(Here())) == None
    {
      hide SymbolAt, BitsLsb, CodewordAt, NoCodewordAt, ZTable.Describes, Repeat, RepeatBase, RepeatExtra, Field, Code;
      ghost var lens := lencodes[..n];
      ghost var f := Here();
      m := n;
      var c := HuffmanDecode(z, cl);
      DecodedIs(cl, data, f, c);
      if c < 0 || c >= 19 {
        return false, m;
      }
      if c < 16 {
        lencodes[n] := c;
        m := n + 1;
        assert lencodes[..m] == lens + [c];
        return true, m;
      }
      var count := ReceiveRepeat(c);
      var fill := 0;
      if c == 16 {
        if n == 0 {
          return false, m;
        }
        fill := lencodes[n - 1];
      }
      if ntot - n < count {
        return false, m;
      }
      Memset(lencodes, n, fill, count);
      m := n + count;
      assert lencodes[..m] == lens + Repeat(fill, count);
      return true, m;
    }

    /** The loop that expands run-length coded code lengths. */
    method ExpandLengths(z: ZTable, ghost cl: seq<nat>, ntot: nat) returns (r: ZResult, lencodes: array<nat>)
      requires ReaderValid() && z.Describes(cl) && ntot <= 320
      modifies this`next, this`numBits, this`codeBuffer, this`hitZeofOnce, this`pos
      ensures ReaderValid() && pos >= old(pos)
      ensures fresh(lencodes) && lencodes.Length == 286 + 32 + 137
      ensures r == Ok ==> LengthItems(cl, data, ntot, old(pos), []) == Lengths(pos, lencodes[..ntot])
      ensures r == Ok ==> LengthsAtMost(lencodes[..ntot], 15)
      ensures r == Ok ==> ItemsRead(cl, data, ntot, old(Here()), []) == Some(Here())
      ensures r != Ok ==>
        LengthItems(cl, data, ntot, old(pos), []) == BadLengths || ItemsRead(cl, data, ntot, old(Here()), []) == None
    {
      hide BitsLsb, ZTable.Describes, LengthItems, LengthItem, LengthsAtMost, ItemsRead, ItemRead;
      lencodes := new nat[286 + 32 + 137];
      var n := 0;
      ghost var goal, reading := LengthItems(cl, data, ntot, pos, []), ItemsRead(cl, data, ntot, Here(), []);
      assert lencodes[..n] == [];
      NoLengths();
      while n < ntot
        invariant 0 <= n <= ntot
        invariant ReaderValid() && pos >= old(pos) && z.Describes(cl)
        invariant LengthItems(cl, data, ntot, pos, lencodes[..n]) == goal
        invariant ItemsRead(cl, data, ntot, Here(), lencodes[..n]) == reading
        invariant LengthsAtMost(lencodes[..n], 15)
      {
        LengthItemsNext(cl, data, ntot, Here(), lencodes[..n]);
        var ok;
        ok, n := ExpandItem(z, cl, ntot, lencodes, n);
        if !ok {
          return BadCodeLengths, lencodes;
        }
      }
      LengthItemsDone(cl, data, ntot, Here(), lencodes[..n]);
      r := Ok;
    }

    /** The three counts that begin a dynamic block. */
    method ReadCounts() returns (hlit: nat, hdist: nat, hclen: nat)
      requires ReaderValid()
      modifies this`next, this`numBits, this`codeBuffer, this`pos
      ensures ReaderValid() && pos == old(pos) + 14
      ensures hlit == HeaderLit(data, old(pos)) <= 288 && hdist == HeaderDist(data, old(pos)) <= 32
      ensures hclen == BitsLsb(data, old(pos) + 10, 4) + 4 <= 19
      ensures Here() == Counts(|data|, old(Here()))
    {
      hide BitsLsb, Pow2, Field;
      HeaderBounds(data, pos);
      hlit := Receive(5);
      hlit := hlit + 257;
      hdist := Receive(5);
      hdist := hdist + 1;
      hclen := Receive(4);
      hclen := hclen + 4;
    }

    /** The header and the code lengths of a dynamic block. */
    method ReadLengths() returns (r: ZResult, hlit: nat, hdist: nat, lencodes: array<nat>)
      requires ReaderValid()
      modifies this`next, this`numBits, this`codeBuffer, this`hitZeofOnce, this`pos
      ensures ReaderValid() && pos >= old(pos)
      ensures fresh(lencodes) && lencodes.Length == 286 + 32 + 137
      ensures hlit == HeaderLit(data, old(pos)) <= 288 && hdist == HeaderDist(data, old(pos)) <= 32
      ensures r == Ok ==> DynamicLengths(data, old(pos)) == Lengths(pos, lencodes[..hlit + hdist])
      ensures r == Ok ==> LengthsAtMost(lencodes[..hlit + hdist], 15)
      ensures r == Ok ==> TablesRead(data, old(Here())) == Some(Here())
      ensures r != Ok ==> DynamicLengths(data, old(pos)) == BadLengths || TablesRead(data, old(Here())) == None
    {
      hide BitsLsb, ZTable.Describes, KraftHolds, CodeLengthCode, LengthItems, Pow2, HeaderLit, HeaderDist,
        ItemsRead, Counts, Sizes;
      var hclen;
      hlit, hdist, hclen := ReadCounts();
      var sizes := ReadCodeLengthCode(hclen);
      var z := new ZTable();
      var ok := z.Build(sizes[..]);
      if !ok {
        lencodes := new nat[286 + 32 + 137];
        return BadSizes, hlit, hdist, lencodes;
      }
      r, lencodes := ExpandLengths(z, sizes[..], hlit + hdist);
    }

    /**
     `stbi__compute_huffman_codes`: builds the tables of the two codes the block describes,
     or fails when it describes none or a code cannot be read.
     */
    method ComputeHuffmanCodes() returns (r: ZResult, ghost t: Tables)
      requires ReaderValid() && TablesValid()
      modifies this`next, this`numBits, this`codeBuffer, this`hitZeofOnce, this`pos
      modifies TableArrays()
      ensures ReaderValid() && pos >= old(pos)
      ensures t == DynamicTables(data, old(pos))
      ensures r == Ok ==> t.Tables? && t.pos == pos && TablesRead(data, old(Here())) == Some(Here())
      ensures r == Ok ==> zLength.Describes(t.lit) && zDistance.Describes(t.dist)
      ensures r != Ok ==> t == BadTables || TablesRead(data, old(Here())) == None
    {
      hide BitsLsb, ZTable.Describes, KraftHolds, DynamicLengths, HeaderLit, HeaderDist, TablesRead;
      t := DynamicTables(data, pos);
      var hlit, hdist, lencodes;
      r, hlit, hdist, lencodes := ReadLengths();
      if r != Ok {
        return;
      }
      ghost var lens := lencodes[..hlit + hdist];
      var lit, dist := lencodes[..hlit], lencodes[hlit..hlit + hdist];
      assert lit == lens[..hlit] && dist == lens[hlit..];
      var ok := zLength.Build(lit);
      if !ok {
        return BadSizes, t;
      }
      ok := zDistance.Build(dist);
      if !ok {
        return BadSizes, t;
      }
      assert zLength.Describes(lit);
    }

    // ------------------------------------------------------------ stored blocks

    /** The buffered whole bytes go to the header first. */
    method DrainBuffer(header: array<Byte>) returns (k: nat)
      requires ReaderValid() && numBits % 8 == 0 && header.Length == 4
      modifies this`numBits, this`codeBuffer, this`pos, header
      ensures ReaderValid() && numBits == 0 && k <= 4 && pos == old(pos) + 8 * k
      ensures forall i: nat :: i < k ==> header[i] == BitsLsb(data, old(pos) + 8 * i, 8)
    {
      hide BitsLsb, BitAnd, Shr, Pow2;
      k := 0;
      while numBits > 0
        invariant ReaderValid() && 0 <= k <= 4 && pos == old(pos) + 8 * k && numBits % 8 == 0
        invariant numBits + 8 * k <= 32
        invariant forall i: nat :: i < k ==> header[i] == BitsLsb(data, old(pos) + 8 * i, 8)
        decreases numBits
      {
        TakeBits(data, pos, numBits, 8);
        ByteMask(data, pos, codeBuffer);
        header[k] := BitAnd(codeBuffer, 255);
        k := k + 1;
        codeBuffer := Shr(codeBuffer, 8);
        numBits := numBits - 8;
        pos := pos + 8;
      }
    }

    /** `stbi__zget8` with an empty bit buffer. */
    method GetByte() returns (b: Byte)
      requires ReaderValid() && numBits == 0
      modifies this`next, this`pos
      ensures ReaderValid() && pos == old(pos) + 8
      ensures b == BitsLsb(data, old(pos), 8)
    {
      hide BitsLsb;
      FreshByte(data, pos, next);
      NoBits(data, pos);
      NoBits(data, pos + 8);
      b := 0;
      if next < |data| {
        b := data[next];
        next := next + 1;
      }
      pos := pos + 8;
    }

    /** Drop the bits up to the next byte boundary. */
    method DiscardOddBits()
      requires ReaderValid()
      modifies this`next, this`numBits, this`codeBuffer, this`pos
      ensures ReaderValid() && numBits % 8 == 0 && pos == Aligned(old(pos))
    {
      hide BitsLsb, Aligned;
      AlignedIs(pos, numBits);
      if numBits % 8 != 0 {
        var odd := numBits % 8;
        var _ := Receive(odd);
      }
      WholeBytes(pos, numBits);
    }

    /** The four header bytes of a stored block: first the buffered ones, then fresh ones. */
    method StoredHeader() returns (header: array<Byte>)
      requires ReaderValid()
      modifies this`next, this`numBits, this`codeBuffer, this`pos
      ensures ReaderValid() && numBits == 0 && pos == Aligned(old(pos)) + 32
      ensures fresh(header) && header.Length == 4
      ensures forall i: nat :: i < 4 ==> header[i] == BitsLsb(data, Aligned(old(pos)) + 8 * i, 8)
    {
      hide BitsLsb, Aligned;
      DiscardOddBits();
      ghost var q := pos;
      header := new Byte[4];
      var k := DrainBuffer(header);
      while k < 4
        invariant ReaderValid() && numBits == 0 && 0 <= k <= 4 && pos == q + 8 * k
        invariant forall i: nat :: i < k ==> header[i] == BitsLsb(data, q + 8 * i, 8)
      {
        var b := GetByte();
        header[k] := b;
        k := k + 1;
      }
    }

    /** `memcpy` from the input to the output. */
    method CopyStored(len: nat)
      requires ReaderValid() && numBits == 0 && next + len <= |data| && pos == 8 * next
      requires OutputValid() && zout + len <= zoutStart.Length
      modifies this`next, this`pos, this`zout, zoutStart
      ensures ReaderValid() && OutputValid()
      ensures pos == old(pos) + 8 * len
      ensures Output() == old(Output()) + data[old(next)..old(next) + len]
    {
      hide BitsLsb;
      NoBits(data, pos);
      NoBits(data, pos + 8 * len);
      forall i | 0 <= i < len {
        zoutStart[zout + i] := data[next + i];
      }
      zout := zout + len;
      next := next + len;
      pos := pos + 8 * len;
    }

    /** LEN, checked against its complement NLEN. */
    method StoredLength() returns (r: ZResult, len: nat)
      requires ReaderValid()
      modifies this`next, this`numBits, this`codeBuffer, this`pos
      ensures ReaderValid() && numBits == 0 && pos == Aligned(old(pos)) + 32
      ensures var q := Aligned(old(pos));
        && len == BitsLsb(data, q, 16)
        && r == if BitsLsb(data, q + 16, 16) == 0xFFFF - len then Ok else ZlibCorrupt
    {
      hide BitsLsb, Aligned;
      ghost var q := Aligned(pos);
      var header := StoredHeader();
      assert header[0] == BitsLsb(data, q + 8 * 0, 8) && header[1] == BitsLsb(data, q + 8 * 1, 8);
      assert header[2] == BitsLsb(data, q + 8 * 2, 8) && header[3] == BitsLsb(data, q + 8 * 3, 8);
      len := header[1] as int * 256 + header[0] as int;
      var nlen := header[3] as int * 256 + header[2] as int;
      TwoBytes(data, q);
      TwoBytes(data, q + 16);
      r := if nlen != 0xFFFF - len then ZlibCorrupt else Ok;
    }

    /** The bytes of a stored block whose header ended here. */
    method TakeStored(len: nat, ghost p: nat) returns (r: ZResult)
      requires ReaderValid() && numBits == 0 && pos == Aligned(p) + 32
      requires len == BitsLsb(data, Aligned(p), 16) && BitsLsb(data, Aligned(p) + 16, 16) == 0xFFFF - len
      requires OutputValid()
      modifies this`next, this`pos, this`zout, this`zoutStart, zoutStart
      ensures ReaderValid() && OutputValid()
      ensures zoutStart == old(zoutStart) || (zExpandable && fresh(zoutStart))
      ensures r == Ok ==> Stored(data, p, old(Output()), State(pos, Output())) && pos <= 8 * |data|
      ensures r == Ok ==> next == pos / 8 && numBits == 0
      ensures r != Ok ==> forall b :: Stored(data, p, old(Output()), b) ==> NoRoom(r, |b.out|)
    {
      hide BitsLsb, Aligned;
      ghost var q := Aligned(p);
      AlignedBounds(p);
      if next + len > |data| {
        return ReadPastBuffer;
      }
      StoredInside(data, q, next);
      if zout + len > zoutStart.Length {
        StoredFits(data, q);
        r := Expand(len);
        if r != Ok {
          return;
        }
      }
      CopyStored(len);
      r := Ok;
    }

    /** `stbi__parse_uncompressed_block`. */
    method ParseUncompressedBlock() returns (r: ZResult)
      requires ReaderValid() && OutputValid()
      modifies this`next, this`numBits, this`codeBuffer, this`pos
      modifies this`zout, this`zoutStart, zoutStart
      ensures ReaderValid() && OutputValid()
      ensures zoutStart == old(zoutStart) || (zExpandable && fresh(zoutStart))
      ensures r == Ok ==> Stored(data, old(pos), old(Output()), State(pos, Output())) && pos <= 8 * |data|
      ensures r == Ok ==> next == pos / 8 && numBits == 0
      ensures r != Ok ==> forall b :: Stored(data, old(pos), old(Output()), b) ==> NoRoom(r, |b.out|)
    {
      hide BitsLsb, Aligned, NoRoom;
      ghost var p := pos;
      var len;
      r, len := StoredLength();
      if r == Ok {
        r := TakeStored(len, p);
      }
    }

    // -------------------------------------------------------------- the stream

    /** The two codes of a block of type 1 or 2, and the reading of them. */
    method PrepareTables(fixedCodes: bool) returns (r: ZResult, ghost t: Tables, ghost f: Option<Reader>)
      requires ReaderValid() && TablesValid()
      modifies this`next, this`numBits, this`codeBuffer, this`hitZeofOnce, this`pos
      modifies TableArrays()
      ensures ReaderValid() && pos >= old(pos)
      ensures t == if fixedCodes then Tables(old(pos), FixedLit(), FixedDist()) else DynamicTables(data, old(pos))
      ensures f == if fixedCodes then Some(old(Here())) else TablesRead(data, old(Here()))
      ensures r == Ok ==> t.Tables? && t.pos == pos && f == Some(Here())
      ensures r == Ok ==> zLength.Describes(t.lit) && zDistance.Describes(t.dist)
      ensures r != Ok ==> t == BadTables || f == None
    {
      hide BitsLsb, ZTable.Describes, KraftHolds, DynamicTables, TablesRead;
      FixedCodesHold();
      if fixedCodes {
        t, f := Tables(pos, FixedLit(), FixedDist()), Some(Here());
        var ok := zLength.Build(FixedLit());
        if !ok {
          return BadSizes, t, f;
        }
        ok := zDistance.Build(FixedDist());
        if !ok {
          return BadSizes, t, f;
        }
        assert zLength.Describes(t.lit);
        r := Ok;
      } else {
        f := TablesRead(data, Here());
        r, t := ComputeHuffmanCodes();
      }
    }

    /** The failure `r` is for want of room for whatever the tokens from `f` on may append. */
    ghost predicate CodedExcuses(r: ZResult, lit: seq<nat>, dist: seq<nat>, f: Reader, out: seq<Byte>)
      reads this
    {
      forall b, q :: CodedRead(lit, dist, data, f, out, b, q) ==> NoRoom(r, |b.out|)
    }

    /** The failure `r` is for want of room for whatever the body of a block here may append. */
    ghost predicate BodyExcuses(r: ZResult, kind: nat, f: Reader, out: seq<Byte>)
      reads this
    {
      forall b, q :: BodyRead(kind, data, f, out, b, q) ==> NoRoom(r, |b.out|)
    }

    /** The failure `r` is for want of room for whatever a block that begins in `a` may append. */
    ghost predicate BlockExcuses(r: ZResult, a: State, f: Reader)
      reads this
    {
      forall b, q, l :: BlockRead(data, a, f, b, q, l) ==> NoRoom(r, |b.out|)
    }

    /** A block that ended has been read. */
    lemma BlockEnded(lit: seq<nat>, dist: seq<nat>, f: Reader, out: seq<Byte>, n: nat)
      requires OutputValid() && BlockResult(lit, dist, f, out, Ok, n)
      ensures CodedRead(lit, dist, data, f, out, State(pos, Output()), Here())
    {
      hide Tokens, TokensRead, Reader.Spent;
      assert EndsAt(lit, dist, data, f, out, n, State(pos, Output()), Here());
    }

    /** Where decoding failed, the tokens cannot be read, or what they append has no room. */
    lemma BlockExcused(lit: seq<nat>, dist: seq<nat>, f: Reader, out: seq<Byte>, r: ZResult, n: nat)
      requires OutputValid() && r != Ok && BlockResult(lit, dist, f, out, r, n)
      ensures CodedExcuses(r, lit, dist, f, out)
    {
      hide Tokens, TokensRead, Reader.Spent;
      forall b, q | CodedRead(lit, dist, data, f, out, b, q)
        ensures NoRoom(r, |b.out|)
      {
        CodedReadReaches(lit, dist, data, f, out, b, q, n);
      }
    }

    /** A block of type 1 or 2. */
    method ParseCodedBlock(fixedCodes: bool) returns (r: ZResult, ghost t: Tables, ghost f: Option<Reader>)
      requires ReaderValid() && OutputValid() && TablesValid()
      modifies this`next, this`numBits, this`codeBuffer, this`hitZeofOnce, this`pos
      modifies this`zout, this`zoutStart, zoutStart, TableArrays()
      ensures ReaderValid() && OutputValid()
      ensures zoutStart == old(zoutStart) || (zExpandable && fresh(zoutStart))
      ensures pos >= old(pos)
      ensures t == if fixedCodes then Tables(old(pos), FixedLit(), FixedDist()) else DynamicTables(data, old(pos))
      ensures f == if fixedCodes then Some(old(Here())) else TablesRead(data, old(Here()))
      ensures r == Ok ==> t.Tables? && f.Some?
      ensures r == Ok ==> CodedRead(t.lit, t.dist, data, f.value, old(Output()), State(pos, Output()), Here())
      ensures r != Ok && t.Tables? && f.Some? ==> CodedExcuses(r, t.lit, t.dist, f.value, old(Output()))
    {
      hide BitsLsb, ZTable.Describes, DynamicTables, TablesRead, BlockResult, FixedLit, FixedDist, CodedRead,
        CodedExcuses;
      ghost var out := Output();
      r, t, f := PrepareTables(fixedCodes);
      if r == Ok {
        assert Output() == out;
        ghost var n;
        r, n := ParseHuffmanBlock(t.lit, t.dist);
        if r == Ok {
          BlockEnded(t.lit, t.dist, f.value, out, n);
        } else {
          BlockExcused(t.lit, t.dist, f.value, out, r, n);
        }
      }
    }

    /** A block is its three header bits and its body. */
    lemma BodyToBlock(r: ZResult, a: State, s: Reader, f: Reader, b: State, q: Reader, final: nat, kind: nat)
      requires final == BitsLsb(data, a.pos, 1) && kind == BitsLsb(data, a.pos + 1, 2)
      requires s.pos == a.pos && f == Field(|data|, Field(|data|, s, 1), 2)
      ensures BodyExcuses(r, kind, f, a.out) ==> BlockExcuses(r, a, s)
      ensures BodyRead(kind, data, f, a.out, b, q) ==> BlockRead(data, a, s, b, q, final == 1)
    {
      hide BitsLsb, BodyRead, NoRoom, Field;
    }

    /** The branch on the type of a block. */
    method ParseBody(kind: nat) returns (r: ZResult)
      requires ReaderValid() && OutputValid() && TablesValid() && kind < 4
      modifies this`next, this`numBits, this`codeBuffer, this`hitZeofOnce, this`pos
      modifies this`zout, this`zoutStart, zoutStart, TableArrays()
      ensures ReaderValid() && OutputValid()
      ensures zoutStart == old(zoutStart) || (zExpandable && fresh(zoutStart))
      ensures r == Ok ==> pos >= old(pos)
      ensures r == Ok ==> BodyRead(kind, data, old(Here()), old(Output()), State(pos, Output()), Here())
      ensures r == Ok && kind == 0 ==> old(pos) < pos <= 8 * |data|
      ensures r != Ok ==> BodyExcuses(r, kind, old(Here()), old(Output()))
    {
      hide BitsLsb, DynamicTables, TablesRead, CodedRead, Stored, FixedLit, FixedDist, NoRoom;
      if kind == 0 {
        ghost var p, out := pos, Output();
        r := ParseUncompressedBlock();
        StoredAdvances(data, p, out, State(pos, Output()), r == Ok);
      } else if kind == 3 {
        r := BadBlockType;
      } else {
        ghost var t, f;
        r, t, f := ParseCodedBlock(kind == 1);
      }
    }

    /** The three bits that begin a block. */
    method ReadBlockHeader() returns (final: nat, kind: nat)
      requires ReaderValid()
      modifies this`next, this`numBits, this`codeBuffer, this`pos
      ensures ReaderValid() && pos == old(pos) + 3
      ensures Here() == Field(|data|, Field(|data|, old(Here()), 1), 2)
      ensures final == BitsLsb(data, old(pos), 1) && kind == BitsLsb(data, old(pos) + 1, 2) < 4
      ensures old(pos) >= 8 * |data| ==> kind == 0
    {
      hide BitsLsb, Pow2, Field;
      BlockHeaderBits(data, pos);
      final := Receive(1);
      kind := Receive(2);
    }

    /** One round of the loop of `stbi__parse_zlib`. */
    method ParseBlock() returns (r: ZResult, last: bool)
      requires ReaderValid() && OutputValid() && TablesValid()
      modifies this`next, this`numBits, this`codeBuffer, this`hitZeofOnce, this`pos
      modifies this`zout, this`zoutStart, zoutStart, TableArrays()
      ensures ReaderValid() && OutputValid()
      ensures zoutStart == old(zoutStart) || (zExpandable && fresh(zoutStart))
      ensures r == Ok ==> BlockRead(data, State(old(pos), old(Output())), old(Here()), State(pos, Output()), Here(), last)
      ensures r == Ok ==> pos > old(pos) && old(pos) < 8 * |data|
      ensures r != Ok ==> BlockExcuses(r, State(old(pos), old(Output())), old(Here()))
    {
      hide BitsLsb, BodyRead, BlockRead, BodyExcuses, BlockExcuses, ReaderValid, Field;
      ghost var a, s := State(pos, Output()), Here();
      var final, kind := ReadBlockHeader();
      last := final == 1;
      ghost var f := Here();
      r := ParseBody(kind);
      BodyToBlock(r, a, s, f, State(pos, Output()), Here(), final, kind);
    }

    /** The failure of a block after `chain` is for want of room for every reading of the stream. */
    lemma StreamExcused(chain: seq<State>, rs: seq<Reader>, r: ZResult)
      requires Chained(data, chain, rs) && BlockExcuses(r, chain[|chain| - 1], rs[|rs| - 1])
      ensures forall c: seq<State>, qs :: Accepted(data, c, qs) ==> NoRoom(r, |c[|c| - 1].out|)
    {
      hide BlockRead, Reader.Valid;
      forall c: seq<State>, qs | Accepted(data, c, qs)
        ensures NoRoom(r, |c[|c| - 1].out|)
      {
        NextBlock(data, c, qs, chain, rs);
      }
    }

    /** So a stream that means something and ends inside the input fails for want of room only. */
    lemma InsideExcused(r: ZResult)
      requires forall c: seq<State>, qs :: Accepted(data, c, qs) ==> NoRoom(r, |c[|c| - 1].out|)
      ensures InsideExcuses(r)
    {
      hide Block, Accepted, NoRoom;
      forall c: seq<State> | Inflated(data, c) && c[0] == State(0, []) && c[|c| - 1].pos <= 8 * |data|
        ensures NoRoom(r, |c[|c| - 1].out|)
      {
        var qs := ReadInsideInput(data, c);
      }
    }

    /** An encoded stream decodes to what was encoded, or has no room for it. */
    ghost predicate Decodes(r: ZResult, pieces: seq<Piece>)
      reads this, zoutStart
      requires OutputValid() && PiecesFit(pieces)
    {
      if r == Ok then State(pos, Output()) == State(|Written(pieces, true)|, Meant(pieces))
      else NoRoom(r, |Meant(pieces)|)
    }

    lemma EncodedDecoded(r: ZResult, chain: seq<State>)
      requires OutputValid()
      requires r == Ok ==> Inflated(data, chain) && chain[0] == State(0, [])
      requires r == Ok ==> chain[|chain| - 1] == State(pos, Output())
      requires r != Ok ==> InsideExcuses(r)
      ensures forall pieces :: Encodes(data, pieces) ==> Decodes(r, pieces)
    {
      hide Block, Written, Meant, Carries, PiecesFit, NoRoom;
      forall pieces | Encodes(data, pieces)
        ensures Decodes(r, pieces)
      {
        if r == Ok {
          EncodedDecodes(data, pieces, chain);
        } else {
          var c := EncodedInflates(data, pieces);
        }
      }
    }

    /** The failure `r` is for want of room for every decoding that ends inside the input. */
    ghost predicate InsideExcuses(r: ZResult)
      reads this
    {
      forall c: seq<State> ::
        Inflated(data, c) && c[0] == State(0, []) && c[|c| - 1].pos <= 8 * |data| ==> NoRoom(r, |c[|c| - 1].out|)
    }

    /**
     `stbi__parse_zlib` after the header.  A success leaves in the output exactly what the
     chain of blocks at the start of the input means, having used no more bits than there
     are and refills made up.  A failure on an input that can be read is for want of room,
     and so is one on any stream that means something and ends inside the input.  An encoded
     stream gives back what was encoded.
     */
    method ParseZlib() returns (r: ZResult, ghost chain: seq<State>, ghost rs: seq<Reader>)
      requires ReaderValid() && Here() == START
      requires OutputValid() && zout == 0 && TablesValid()
      modifies this`next, this`numBits, this`codeBuffer, this`hitZeofOnce, this`pos
      modifies this`zout, this`zoutStart, zoutStart, TableArrays()
      ensures OutputValid()
      ensures forall pieces :: Encodes(data, pieces) ==> Decodes(r, pieces)
      ensures r == Ok ==> Accepted(data, chain, rs) && Inflated(data, chain)
      ensures r == Ok ==> chain[|chain| - 1] == State(pos, Output()) && rs[|rs| - 1] == Here()
      ensures r == Ok ==> pos <= 8 * |data| + Here().Invented() && (pos > 8 * |data| <==> Here().Overran())
      ensures r != Ok ==> forall c: seq<State>, qs :: Accepted(data, c, qs) ==> NoRoom(r, |c[|c| - 1].out|)
      ensures r != Ok ==> InsideExcuses(r)
    {
      hide BlockRead, BitsLsb, NoRoom, BlockExcuses, Reader.Valid, InsideExcuses, Inflated, Encodes, Decodes;
      assert Output() == [];
      chain, rs := [State(pos, Output())], [Here()];
      var last := false;
      while !last
        invariant ReaderValid() && OutputValid() && TablesValid()
        invariant zoutStart == old(zoutStart) || (zExpandable && fresh(zoutStart))
        invariant |chain| >= 1 && chain[|chain| - 1] == State(pos, Output())
        invariant |rs| == |chain| && rs[|rs| - 1] == Here()
        invariant if last then Accepted(data, chain, rs) else Chained(data, chain, rs)
        decreases if last then 0 else 1, 8 * |data| - pos
      {
        ghost var a, f := State(pos, Output()), Here();
        r, last := ParseBlock();
        if r != Ok {
          StreamExcused(chain, rs, r);
          InsideExcused(r);
          EncodedDecoded(r, chain);
          return;
        }
        Extend(data, chain, rs, State(pos, Output()), Here(), last);
        chain, rs := chain + [State(pos, Output())], rs + [Here()];
      }
      AcceptedMeans(data, chain, rs);
      r := Ok;
      EncodedDecoded(r, chain);
    }
  }
}
