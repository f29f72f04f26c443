/**
 The JPEG Huffman tables of stb_image: `stbi__build_huffman`, and what the table lookups of
 `stbi__jpeg_huff_decode` make of the next sixteen bits.

 JPEG reads codes from the top of a 32-bit buffer.  `fast` is indexed by the top nine
 bits and holds a symbol index, with 255 standing for "not accelerated".
 */
module JpegHuffman {
  import opened Bits
  import opened CanonicalCode

  const FAST_BITS: nat := 9
  const FAST_SIZE: nat := 512
  const NOT_FAST: nat := 255

  // --------------------------------------------------------------- size lists

  /** `HUFFSIZE` of annex C.2 of ITU-T T.81: `count[i]` codes of `i + 1` bits, for the first `n` lengths. */
  function SizeList(count: seq<nat>, n: nat): seq<nat>
    requires n <= |count|
  {
    if n == 0 then [] else SizeList(count, n - 1) + seq(count[n - 1], _ => n)
  }

  ghost predicate Sorted(lens: seq<nat>) {
    forall i, j :: 0 <= i < j < |lens| ==> lens[i] <= lens[j]
  }

  ghost predicate Positive(lens: seq<nat>) {
    forall i :: 0 <= i < |lens| ==> lens[i] > 0
  }

  lemma {:induction false} SizeListShape(count: seq<nat>, n: nat)
    requires n <= |count|
    ensures Sorted(SizeList(count, n)) && Positive(SizeList(count, n)) && LengthsAtMost(SizeList(count, n), n)
  {
    if n > 0 {
      SizeListShape(count, n - 1);
    }
  }

  lemma {:induction false} CountConcat(a: seq<nat>, b: seq<nat>, n: nat, l: nat)
    requires n <= |b|
    ensures Count(a + b, |a| + n, l) == Count(a, |a|, l) + Count(b, n, l)
  {
    if n > 0 {
      CountConcat(a, b, n - 1, l);
    } else {
      CountPrefix(a, b, |a|, l);
    }
  }

  lemma {:induction false} CountPrefix(a: seq<nat>, b: seq<nat>, n: nat, l: nat)
    requires n <= |a|
    ensures Count(a + b, n, l) == Count(a, n, l)
  {
    if n > 0 {
      CountPrefix(a, b, n - 1, l);
    }
  }

  /** The list has as many codes of each length as the table segment says. */
  lemma {:induction false} SizeListCounts(count: seq<nat>, n: nat, l: nat)
    requires n <= |count|
    ensures Count(SizeList(count, n), |SizeList(count, n)|, l) == if 1 <= l <= n then count[l - 1] else 0
  {
    if n > 0 {
      SizeListCounts(count, n - 1, l);
      var run := seq(count[n - 1], _ => n);
      assert Count(run, 0, l) == 0;
      hide Count;
      CountRun(run, 0, |run|, n, l);
      CountConcat(SizeList(count, n - 1), run, |run|, l);
    }
  }

  /** In a sorted list every symbol is at the place its length and number give it. */
  lemma RankSorted(lens: seq<nat>, k: nat)
    requires Sorted(lens) && Positive(lens) && k < |lens|
    ensures Rank(lens, k) == k
  {
    SortedBelow(lens, k, k);
    SortedAbove(lens, k, |lens|);
  }

  lemma {:induction false} SortedBelow(lens: seq<nat>, n: nat, k: nat)
    requires Sorted(lens) && Positive(lens) && n <= k < |lens|
    ensures Shorter(lens, n, lens[k]) + Count(lens, n, lens[k]) == n
    decreases n
  {
    if n > 0 {
      SortedBelow(lens, n - 1, k);
      ShorterStep(lens, n - 1, lens[k]);
    } else {
      ShorterEmpty(lens, lens[k]);
    }
  }

  lemma {:induction false} SortedAbove(lens: seq<nat>, k: nat, m: nat)
    requires Sorted(lens) && Positive(lens) && k < |lens| && k <= m <= |lens|
    ensures Shorter(lens, m, lens[k]) == Shorter(lens, k, lens[k])
    decreases m
  {
    if k < m {
      SortedAbove(lens, k, m - 1);
      ShorterStep(lens, m - 1, lens[k]);
    }
  }

  /** In a sorted list the symbols of length `j` are the block that starts after the shorter ones. */
  lemma SortedBlock(lens: seq<nat>, j: nat, k: nat)
    requires Sorted(lens) && Positive(lens) && 1 <= j && Shorter(lens, |lens|, j) <= k < |lens|
    ensures lens[k] >= j
    ensures lens[k] == j <==> k < Shorter(lens, |lens|, j) + Count(lens, |lens|, j)
    ensures lens[k] == j ==> CodeOf(lens, k) == FirstCode(lens, j) + (k - Shorter(lens, |lens|, j))
  {
    hide Shorter, Count, FirstCode;
    RankSorted(lens, k);
    RankBound(lens, k);
    if lens[k] < j {
      ShorterMonotone(lens, lens[k], j);
    } else if lens[k] > j {
      ShorterMonotone(lens, j, lens[k]);
    }
  }

  /** All symbols of lengths up to 16 come before the end of the list. */
  lemma AllShorter(lens: seq<nat>, m: nat)
    requires LengthsAtMost(lens, m) && Positive(lens)
    ensures Shorter(lens, |lens|, m + 1) == |lens|
  {
    AllShorterUpTo(lens, |lens|, m);
  }

  lemma {:induction false} AllShorterUpTo(lens: seq<nat>, n: nat, m: nat)
    requires n <= |lens| && LengthsAtMost(lens, m) && Positive(lens)
    ensures Shorter(lens, n, m + 1) == n
  {
    hide Shorter;
    if n > 0 {
      AllShorterUpTo(lens, n - 1, m);
      ShorterStep(lens, n - 1, m + 1);
    } else {
      ShorterEmpty(lens, m + 1);
    }
  }

  lemma {:induction false} SizeListGrows(count: seq<nat>, n: nat, m: nat)
    requires n <= m <= |count|
    ensures |SizeList(count, n)| <= |SizeList(count, m)|
    decreases m
  {
    if n < m {
      SizeListGrows(count, n, m - 1);
    }
  }

  /** What `fast[t]` holds once the first `n` symbols are entered. */
  ghost predicate FastEntry(lens: seq<nat>, n: nat, t: nat, v: nat) {
    || (v == NOT_FAST && forall i: nat :: i < n ==> !Matches(lens, i, t, FAST_BITS))
    || (v < n && Matches(lens, v, t, FAST_BITS))
  }

  // ------------------------------------------------------------------- lookup

  /** The members of a table that decoding reads. */
  datatype Table = Table(fast: seq<nat>, size: seq<nat>, maxcode: seq<nat>, delta: seq<int>) {
    ghost predicate Shape() {
      && |fast| == FAST_SIZE && |size| == 257 && |maxcode| == 18 && |delta| == 17
      && maxcode[17] == 0xFFFF_FFFF
      && forall t :: 0 <= t < FAST_SIZE ==> fast[t] <= NOT_FAST
    }
  }

  ghost predicate TableFor(t: Table, lens: seq<nat>) {
    && t.Shape()
    && Sorted(lens) && Positive(lens) && LengthsAtMost(lens, 16) && KraftHolds(lens, 16)
    && |lens| <= 256 && t.size[..|lens|] == lens
    && (forall j: nat :: 1 <= j < 17 ==>
      && t.maxcode[j] == Shl(EndCode(lens, j), 16 - j)
      && t.delta[j] == Shorter(lens, |lens|, j) - FirstCode(lens, j))
    && forall i: nat :: i < FAST_SIZE ==> FastEntry(lens, |lens|, i, t.fast[i])
  }

  /** The first length from `k` on whose preshifted end is above the window. */
  ghost function SlowLength(t: Table, window: nat, k: nat): (r: nat)
    requires t.Shape() && 1 <= k <= 17 && window < 0xFFFF_FFFF
    ensures k <= r <= 17 && window < t.maxcode[r]
    ensures forall j: nat :: k <= j < r ==> window >= t.maxcode[j]
    decreases 17 - k
  {
    if window < t.maxcode[k] then k else SlowLength(t, window, k + 1)
  }

  /** Symbol index and code length that the tables give for the next sixteen bits; (-1, 17) when the search fails. */
  ghost function Lookup(t: Table, window: nat): (r: (int, nat))
    requires t.Shape() && window < 0x10000
  {
    WindowIndex(window);
    var k := t.fast[Shr(window, 7)];
    if k < NOT_FAST then (k, t.size[k])
    else
      var n := SlowLength(t, window, FAST_BITS + 1);
      if n == 17 then (-1, 17) else (Shr(window, 16 - n) + t.delta[n], n)
  }

  /** What DECODE (section F.2.2.3) gives for the next sixteen bits; (-1, 17) for no code. */
  ghost function Specified(lens: seq<nat>, window: nat): (r: (int, nat)) {
    var i := Decode(lens, window, 16);
    if i < 0 then (-1, 17) else (i, lens[i])
  }

  lemma WindowIndex(window: nat)
    requires window < 0x10000
    ensures Shr(window, 7) < FAST_SIZE
  {
    hide Shr, Shl;
    Pow2Nine();
    ShlOne(9);
    ShlShl(1, 9, 7);
    ShlOne(16);
    Pow2Sixteen();
    ShrInterval(window, 7, FAST_SIZE);
  }

  lemma FastWindow(lens: seq<nat>, i: nat, window: nat)
    requires i < |lens| && lens[i] <= FAST_BITS
    ensures Matches(lens, i, Shr(window, 7), FAST_BITS) <==> Matches(lens, i, window, 16)
  {
    hide Shr, CodeOf;
    ShrShr(window, 7, FAST_BITS - lens[i]);
  }

  lemma DecodeIs(lens: seq<nat>, i: nat, window: nat)
    requires Matches(lens, i, window, 16)
    ensures Decode(lens, window, 16) == i
  {
    hide Matches;
    MatchUnique(lens, i, Decode(lens, window, 16), window, 16);
  }

  /** The window is the only one of its table that the flag value 255 spoils. */
  ghost predicate Spoilt(lens: seq<nat>, window: nat) {
    Decode(lens, window, 16) == NOT_FAST && lens[NOT_FAST] <= FAST_BITS
  }

  /** Unless the flag value is in the way, the lookup is DECODE. */
  lemma LookupCorrect(t: Table, lens: seq<nat>, window: nat)
    requires TableFor(t, lens) && window < 0x10000 && !Spoilt(lens, window)
    ensures Lookup(t, window) == Specified(lens, window)
  {
    hide Shr, Shl, Matches, KraftHolds, EndCode, FirstCode, Shorter, SlowLength, CodeOf;
    WindowIndex(window);
    var k := t.fast[Shr(window, 7)];
    assert FastEntry(lens, |lens|, Shr(window, 7), k);
    if k < |lens| && Matches(lens, k, Shr(window, 7), FAST_BITS) {
      assert lens[k] <= FAST_BITS by { MatchLength(lens, k, Shr(window, 7), FAST_BITS); }
      FastWindow(lens, k, window);
      DecodeIs(lens, k, window);
      assert t.size[..|lens|][k] == t.size[k];
    } else {
      SlowCorrect(t, lens, window);
    }
  }

  lemma MatchLength(lens: seq<nat>, i: nat, k: nat, w: nat)
    requires Matches(lens, i, k, w)
    ensures i < |lens| && 0 < lens[i] <= w
  {}

  lemma SlowCorrect(t: Table, lens: seq<nat>, window: nat)
    requires TableFor(t, lens) && window < 0x10000
    requires forall i: nat :: i < |lens| ==> !Matches(lens, i, Shr(window, 7), FAST_BITS)
    ensures var n := SlowLength(t, window, FAST_BITS + 1);
      Specified(lens, window) == if n == 17 then (-1, 17) else (Shr(window, 16 - n) + t.delta[n], n)
  {
    hide Shr, Shl, Matches, KraftHolds, EndCode, FirstCode, Shorter, SlowLength, CodeOf, FastEntry;
    var n := SlowLength(t, window, FAST_BITS + 1);
    ShrInterval(window, 7, EndCode(lens, FAST_BITS));
    if Shr(window, 7) < EndCode(lens, FAST_BITS) {
      var i := MatchExists(lens, window, 16, FAST_BITS);
      MatchLength(lens, i, window, 16);
      FastWindow(lens, i, window);
      assert false;
    }
    AboveEnd(lens, window, n - 1, 16);
    if n == 17 {
      var i := Decode(lens, window, 16);
      if i >= 0 {
        MatchLength(lens, i, window, 16);
        assert false;
      }
    } else {
      ShrInterval(window, 16 - n, EndCode(lens, n));
      var i := SlowHit(lens, window, n, 16);
      MatchLength(lens, i, window, 16);
      RankSorted(lens, i);
      DecodeIs(lens, i, window);
    }
  }

  /** A spoilt window is decoded with ten bits instead of its own length. */
  lemma LookupSpoilt(t: Table, lens: seq<nat>, window: nat)
    requires TableFor(t, lens) && window < 0x10000 && Spoilt(lens, window)
    ensures Lookup(t, window).1 == 10 && Specified(lens, window).1 < 10
  {
    hide Shr, Shl, Matches, KraftHolds, EndCode, FirstCode, Shorter, CodeOf;
    WindowIndex(window);
    var k := t.fast[Shr(window, 7)];
    assert FastEntry(lens, |lens|, Shr(window, 7), k);
    MatchLength(lens, NOT_FAST, window, 16);
    FastWindow(lens, NOT_FAST, window);
    if k != NOT_FAST {
      MatchUnique(lens, k, NOT_FAST, Shr(window, 7), FAST_BITS);
    }
    MatchBelowEnd(lens, NOT_FAST, window, 16, 10);
    ShrInterval(window, 6, EndCode(lens, 10));
  }

  /**
   The tables decode every window as DECODE does exactly when no short code belongs to
   symbol index 255, the flag value; a list of at most 255 codes is always safe.
   */
  lemma LookupExact(t: Table, lens: seq<nat>)
    requires TableFor(t, lens)
    ensures (forall window: nat :: window < 0x10000 ==>
        Lookup(t, window) == Specified(lens, window))
      <==> !(|lens| == 256 && lens[NOT_FAST] <= FAST_BITS)
  {
    hide Lookup, Specified, Shl, Shr, CodeOf, KraftHolds;
    forall window: nat | window < 0x10000 && !Spoilt(lens, window)
      ensures Lookup(t, window) == Specified(lens, window)
    {
      LookupCorrect(t, lens, window);
    }
    if |lens| == 256 && lens[NOT_FAST] <= FAST_BITS {
      var window := SpoiltWindow(lens);
      LookupSpoilt(t, lens, window);
    }
  }

  /** Symbol index 255 has a codeword, so some window starts with it. */
  lemma SpoiltWindow(lens: seq<nat>) returns (window: nat)
    requires |lens| == 256 && Positive(lens) && lens[NOT_FAST] <= FAST_BITS && KraftHolds(lens, 16)
    ensures window == Shl(CodeOf(lens, NOT_FAST), 16 - lens[NOT_FAST]) < 0x10000 && Spoilt(lens, window)
  {
    hide Shl, Shr, CodeOf, KraftHolds, Pow2;
    var s := lens[NOT_FAST];
    CodeFits(lens, NOT_FAST, 16);
    window := Shl(CodeOf(lens, NOT_FAST), 16 - s);
    ShlLess(CodeOf(lens, NOT_FAST), Pow2(s), 16 - s);
    Pow2Add(s, 16 - s);
    Pow2Sixteen();
    ShrInterval(window, 16 - s, CodeOf(lens, NOT_FAST));
    DecodeIs(lens, NOT_FAST, window);
  }

  // ---------------------------------------------------------------- the assertion

  /** The lookup comes to the assertion of `stbi__jpeg_huff_decode`, bits permitting. */
  ghost predicate Reached(t: Table, window: nat)
    requires t.Shape() && window < 0x10000
  {
    WindowIndex(window);
    t.fast[Shr(window, 7)] == NOT_FAST && Lookup(t, window).1 != 17 && 0 <= Lookup(t, window).0 < 256
  }

  /** The assertion: the window starts with the code of the symbol that was looked up. */
  ghost predicate Asserted(t: Table, lens: seq<nat>, window: nat)
    requires t.Shape() && window < 0x10000
  {
    var i := Lookup(t, window).0;
    0 <= i < |lens| && 0 < lens[i] <= 16 && Shr(window, 16 - lens[i]) == CodeOf(lens, i)
  }

  lemma {:induction false} CountAbsent(lens: seq<nat>, n: nat, l: nat)
    requires n <= |lens| && forall i :: 0 <= i < n ==> lens[i] != l
    ensures Count(lens, n, l) == 0
  {
    if n > 0 {
      CountAbsent(lens, n - 1, l);
    }
  }

  lemma {:induction false} KraftFloor(lens: seq<nat>, n: nat, m: nat, s: nat)
    requires n <= |lens| && s <= m && forall i :: 0 <= i < n ==> 0 < lens[i] <= s
    ensures Kraft(lens, n, m) >= n * Pow2(m - s)
  {
    if n > 0 {
      KraftFloor(lens, n - 1, m, s);
      hide Pow2;
      Pow2Monotone(m - s, m - lens[n - 1]);
      assert n * Pow2(m - s) == (n - 1) * Pow2(m - s) + Pow2(m - s);
    }
  }

  /** A list of the flagged kind is full: its last code has eight or nine bits. */
  lemma FlaggedLength(lens: seq<nat>)
    requires |lens| == 256 && Sorted(lens) && Positive(lens) && lens[NOT_FAST] <= FAST_BITS && KraftHolds(lens, 16)
    ensures lens[NOT_FAST] >= 8
  {
    hide Kraft, Pow2;
    var s := lens[NOT_FAST];
    KraftFloor(lens, 256, 16, s);
    Pow2Sixteen();
    Pow2Nine();
    if s < 8 {
      Pow2Monotone(9, 16 - s);
    }
  }

  /** There are no codes of ten bits, and the ones there are end with the last symbol's. */
  lemma FlaggedEnd(lens: seq<nat>)
    requires |lens| == 256 && Sorted(lens) && Positive(lens) && 8 <= lens[NOT_FAST] <= FAST_BITS
    ensures Shorter(lens, 256, 10) == 256
    ensures FirstCode(lens, 10) == EndCode(lens, 10) == Shl(CodeOf(lens, NOT_FAST) + 1, 10 - lens[NOT_FAST])
  {
    var s := lens[NOT_FAST];
    AllShorter(lens, 9);
    CountAbsent(lens, 256, 10);
    if s == 8 {
      CountAbsent(lens, 256, 9);
    }
    assert Count(lens, 256, s) == Count(lens, NOT_FAST, s) + 1;
    hide Count, Shorter;
    LengthStep(lens, 8);
    LengthStep(lens, 9);
    hide FirstCode, EndCode;
    var c := CodeOf(lens, NOT_FAST) + 1;
    ShlStep(c, 1);
    ShlStep(c, 2);
  }

  /** On a spoilt window the assertion is reached, and holds only if the ten bits looked up are the last. */
  lemma SpoiltAssertion(t: Table, lens: seq<nat>, window: nat)
    requires TableFor(t, lens) && window < 0x10000 && Spoilt(lens, window)
    ensures |lens| == 256 && Lookup(t, window) == (Shr(window, 6) + 256 - EndCode(lens, 10), 10) && Reached(t, window)
    ensures Asserted(t, lens, window) <==> Shr(window, 6) == EndCode(lens, 10) - 1
  {
    hide Shr, Shl, Matches, KraftHolds, EndCode, FirstCode, Shorter, CodeOf, SlowLength;
    WindowIndex(window);
    MatchLength(lens, NOT_FAST, window, 16);
    FlaggedLength(lens);
    FlaggedEnd(lens);
    LookupSpoilt(t, lens, window);
    SpoiltIndex(t, lens, window);
    SpoiltRange(lens, window);
    var i := Lookup(t, window).0;
    if Asserted(t, lens, window) {
      OnlyLast(lens, i, window);
    } else if i == NOT_FAST {
      OnlyLast(lens, NOT_FAST, window);
    }
  }

  lemma SpoiltIndex(t: Table, lens: seq<nat>, window: nat)
    requires TableFor(t, lens) && window < 0x10000 && Spoilt(lens, window)
    ensures Shr(window, 7) < FAST_SIZE && t.fast[Shr(window, 7)] == NOT_FAST
  {
    hide Shr, Shl, Matches, KraftHolds, EndCode, FirstCode, Shorter, CodeOf;
    WindowIndex(window);
    var k := t.fast[Shr(window, 7)];
    assert FastEntry(lens, |lens|, Shr(window, 7), k);
    MatchLength(lens, NOT_FAST, window, 16);
    FastWindow(lens, NOT_FAST, window);
    if k != NOT_FAST {
      MatchUnique(lens, k, NOT_FAST, Shr(window, 7), FAST_BITS);
    }
  }

  /** The first ten bits of a spoilt window are among the last four that the codes cover. */
  lemma SpoiltRange(lens: seq<nat>, window: nat)
    requires Spoilt(lens, window) && 8 <= lens[NOT_FAST] <= FAST_BITS
    requires EndCode(lens, 10) == Shl(CodeOf(lens, NOT_FAST) + 1, 10 - lens[NOT_FAST])
    ensures EndCode(lens, 10) - 4 <= Shr(window, 6) < EndCode(lens, 10)
  {
    hide Shr, EndCode, CodeOf;
    var s := lens[NOT_FAST];
    var c := CodeOf(lens, NOT_FAST);
    ShrShr(window, 6, 10 - s);
    ShrInterval(Shr(window, 6), 10 - s, c);
    ShrInterval(Shr(window, 6), 10 - s, c + 1);
    ShlStep(c, 1);
    ShlStep(c, 2);
    ShlStep(c + 1, 1);
    ShlStep(c + 1, 2);
  }

  lemma OnlyLast(lens: seq<nat>, i: nat, window: nat)
    requires Spoilt(lens, window) && i < |lens| && 0 < lens[i] <= 16
    ensures Shr(window, 16 - lens[i]) == CodeOf(lens, i) <==> i == NOT_FAST
  {
    hide Shr, CodeOf;
    if Shr(window, 16 - lens[i]) == CodeOf(lens, i) {
      MatchUnique(lens, i, NOT_FAST, window, 16);
    }
  }

  /** On any other window the assertion holds if it is reached. */
  lemma SoundAssertion(t: Table, lens: seq<nat>, window: nat)
    requires TableFor(t, lens) && window < 0x10000 && !Spoilt(lens, window) && Reached(t, window)
    ensures Asserted(t, lens, window)
  {
    hide Shr, CodeOf, Lookup, KraftHolds, EndCode, FirstCode, Shorter, FastEntry;
    LookupCorrect(t, lens, window);
  }

  /**
   The assertion holds on every window that comes to it exactly when the list is not of the
   flagged kind; otherwise it fails on the code of symbol index 255 followed by zeros.
   */
  lemma AssertionExact(t: Table, lens: seq<nat>)
    requires TableFor(t, lens)
    ensures (forall window: nat :: window < 0x10000 && Reached(t, window) ==> Asserted(t, lens, window))
      <==> !(|lens| == 256 && lens[NOT_FAST] <= FAST_BITS)
  {
    hide Lookup, Reached, Asserted, Shl, Shr, CodeOf, KraftHolds;
    forall window: nat | window < 0x10000 && Reached(t, window) && !Spoilt(lens, window)
      ensures Asserted(t, lens, window)
    {
      SoundAssertion(t, lens, window);
    }
    if |lens| == 256 && lens[NOT_FAST] <= FAST_BITS {
      var window := AssertionFails(t, lens);
    }
  }

  /** The code of symbol index 255 followed by zeros fails the assertion. */
  lemma AssertionFails(t: Table, lens: seq<nat>) returns (window: nat)
    requires TableFor(t, lens) && |lens| == 256 && lens[NOT_FAST] <= FAST_BITS
    ensures window == Shl(CodeOf(lens, NOT_FAST), 16 - lens[NOT_FAST]) < 0x10000
    ensures Reached(t, window) && !Asserted(t, lens, window)
  {
    hide Lookup, Reached, Asserted, Shl, Shr, CodeOf, KraftHolds, EndCode;
    var s, c := lens[NOT_FAST], CodeOf(lens, NOT_FAST);
    window := SpoiltWindow(lens);
    FlaggedLength(lens);
    FlaggedEnd(lens);
    SpoiltAssertion(t, lens, window);
    ShlShl(c, 10 - s, 6);
    Pow2Positive(6);
    Compose(Shl(c, 10 - s), 0, 6);
    ShlStep(c, 1);
    ShlStep(c, 2);
    ShlStep(c + 1, 1);
    ShlStep(c + 1, 2);
  }

  /** Lists of the flagged kind are accepted: 255 codes of eight bits and one of nine. */
  lemma FlaggedAccepted(count: seq<nat>)
    requires |count| == 16 && count[7] == 255 && count[8] == 1
    requires forall i :: 0 <= i < 16 && i != 7 && i != 8 ==> count[i] == 0
    ensures var lens := SizeList(count, 16);
      |lens| == 256 && lens[NOT_FAST] == 9 && KraftHolds(lens, 16)
  {
    var lens := SizeList(count, 16);
    SizesOf(count, 0, 7);
    SizesOf(count, 9, 16);
    assert SizeList(count, 0) == [];
    assert SizeList(count, 8) == SizeList(count, 7) + seq(255, _ => 8);
    assert SizeList(count, 9) == SizeList(count, 8) + seq(1, _ => 9);
    assert Kraft(lens, 0, 16) == 0;
    hide SizeList, Kraft, Pow2;
    KraftRun(lens, 0, 255, 8, 16);
    KraftRun(lens, 255, 256, 9, 16);
    Pow2Sixteen();
    Pow2Nine();
    ShlByte(0);
    ShlByte(1);
    ShlOne(7);
    Pow2Double(7);
  }

  lemma {:induction false} SizesOf(count: seq<nat>, n: nat, m: nat)
    requires n <= m <= |count| && forall i :: n <= i < m ==> count[i] == 0
    ensures SizeList(count, m) == SizeList(count, n)
  {
    if n < m {
      SizesOf(count, n, m - 1);
    }
  }

  class JHuffman {
    const fast: array<nat>
    const code: array<nat>
    const values: array<nat>
    const size: array<nat>
    const maxcode: array<nat>
    const delta: array<int>

    constructor ()
      ensures Shape() && fresh({fast, code, values, size, maxcode}) && fresh(delta)
    {
      fast := new nat[FAST_SIZE];
      code := new nat[256];
      values := new nat[256];
      size := new nat[257];
      maxcode := new nat[18];
      delta := new int[17];
    }

    ghost predicate Shape() {
      && fast.Length == FAST_SIZE && code.Length == 256 && values.Length == 256
      && size.Length == 257 && maxcode.Length == 18 && delta.Length == 17
      && code != values
    }

    /** The `size` list, ended by a zero. */
    ghost predicate SizesDone(lens: seq<nat>)
      reads size
      requires Shape()
    {
      |lens| <= 256 && size[..|lens|] == lens && size[|lens|] == 0
    }

    ghost predicate LengthsDone(lens: seq<nat>, l: nat)
      reads maxcode, delta
      requires Shape() && l <= 17
    {
      forall j: nat :: 1 <= j < l ==>
        && maxcode[j] == Shl(EndCode(lens, j), 16 - j)
        && delta[j] == Shorter(lens, |lens|, j) - FirstCode(lens, j)
    }

    ghost predicate CodesDone(lens: seq<nat>, n: nat)
      reads code
      requires Shape() && n <= |lens| <= 256 && Positive(lens)
    {
      forall i: nat :: i < n ==> code[i] == Low(CodeOf(lens, i), 16)
    }

    ghost predicate FastDone(lens: seq<nat>, n: nat)
      reads fast
      requires Shape()
    {
      forall t: nat :: t < FAST_SIZE ==> FastEntry(lens, n, t, fast[t])
    }

    /** The table is the one for the sorted size list `lens`. */
    ghost predicate Describes(lens: seq<nat>)
      reads fast, code, size, maxcode, delta
    {
      && Shape()
      && Sorted(lens) && Positive(lens) && LengthsAtMost(lens, 16) && KraftHolds(lens, 16)
      && SizesDone(lens)
      && LengthsDone(lens, 17) && maxcode[17] == 0xFFFF_FFFF
      && (forall i: nat :: i < |lens| ==> code[i] == CodeOf(lens, i))
      && FastDone(lens, |lens|)
    }

    ghost function View(): Table
      reads fast, size, maxcode, delta
    {
      Table(fast[..], size[..], maxcode[..], delta[..])
    }

    lemma ViewIsTable(lens: seq<nat>)
      requires Describes(lens)
      ensures TableFor(View(), lens) && View().Shape()
    {
      hide Matches, Shl, EndCode, FirstCode, Shorter, KraftHolds;
      forall t: nat | t < FAST_SIZE
        ensures FastEntry(lens, |lens|, t, fast[..][t]) && fast[..][t] <= NOT_FAST
      {
        assert FastEntry(lens, |lens|, t, fast[t]);
      }
      assert size[..][..|lens|] == lens;
    }

    /**
     `stbi__build_huffman`: accepts exactly the counts of at most 256 codes that satisfy
     the Kraft inequality.
     */
    method Build(count: seq<nat>) returns (ok: bool)
      requires Shape() && |count| == 16
      modifies fast, code, size, maxcode, delta
      ensures ok <==> |SizeList(count, 16)| <= 256 && KraftHolds(SizeList(count, 16), 16)
      ensures ok ==> Describes(SizeList(count, 16))
    {
      hide SizeList, KraftHolds, Shl, EndCode, FirstCode, Shorter, Low, FastEntry, Matches;
      ghost var lens := SizeList(count, 16);
      SizeListShape(count, 16);
      var k;
      ok, k := FillSizes(count);
      if ok {
        ok := AssignCodes(lens);
        if ok {
          FillFast(lens, k);
        }
      }
    }

    /** The size list, or failure when it would pass 256 entries. */
    method FillSizes(count: seq<nat>) returns (ok: bool, k: nat)
      requires Shape() && |count| == 16
      modifies size
      ensures ok <==> |SizeList(count, 16)| <= 256
      ensures ok ==> k == |SizeList(count, 16)| && SizesDone(SizeList(count, 16))
    {
      k := 0;
      var i := 0;
      while i < 16
        invariant 0 <= i <= 16
        invariant k == |SizeList(count, i)| <= 256 && size[..k] == SizeList(count, i)
      {
        var j := 0;
        while j < count[i]
          invariant 0 <= j <= count[i]
          invariant k == |SizeList(count, i)| + j <= 256
          invariant size[..k] == SizeList(count, i) + seq(j, _ => i + 1)
        {
          size[k] := i + 1;
          k := k + 1;
          if k >= 257 {
            SizeListGrows(count, i + 1, 16);
            return false, k;
          }
          j := j + 1;
        }
        i := i + 1;
      }
      size[k] := 0;
      ok := true;
    }

    /** The inner loop: consecutive codes for the symbols of length `j`. */
    method AssignLength(ghost lens: seq<nat>, j: nat, k0: nat, code0: nat) returns (k: nat, codeword: nat)
      requires Shape() && SizesDone(lens) && 1 <= j <= 16
      requires Sorted(lens) && Positive(lens)
      requires k0 == Shorter(lens, |lens|, j) <= |lens| && code0 == FirstCode(lens, j) && CodesDone(lens, k0)
      modifies code
      ensures k == Shorter(lens, |lens|, j + 1) <= |lens| && codeword == EndCode(lens, j) && CodesDone(lens, k)
      ensures size[k0] != j ==> codeword == code0
    {
      hide Shl, EndCode, FirstCode, Shorter, Count, Low, CodeOf;
      LengthStep(lens, j);
      ShorterBound(lens, |lens|, j + 1);
      if k0 < |lens| {
        assert size[..|lens|][k0] == lens[k0];
        SortedBlock(lens, j, k0);
      }
      k, codeword := k0, code0;
      while size[k] == j
        invariant k0 <= k <= Shorter(lens, |lens|, j + 1)
        invariant codeword == FirstCode(lens, j) + (k - k0)
        invariant CodesDone(lens, k)
        decreases |lens| - k
      {
        assert size[..|lens|][k] == lens[k];
        SortedBlock(lens, j, k);
        code[k] := Low(codeword, 16);
        k, codeword := k + 1, codeword + 1;
      }
      if k < |lens| {
        assert size[..|lens|][k] == lens[k];
        SortedBlock(lens, j, k);
      }
    }

    /** The loop over lengths: codes, deltas and preshifted ends. */
    method AssignCodes(ghost lens: seq<nat>) returns (ok: bool)
      requires Shape() && SizesDone(lens)
      requires Sorted(lens) && Positive(lens) && LengthsAtMost(lens, 16)
      modifies code, maxcode, delta
      ensures ok <==> KraftHolds(lens, 16)
      ensures ok ==> LengthsDone(lens, 17) && maxcode[17] == 0xFFFF_FFFF
      ensures ok ==> forall i: nat :: i < |lens| ==> code[i] == CodeOf(lens, i)
    {
      hide Shl, EndCode, FirstCode, Shorter, Count, Low, CodeOf, Pow2, KraftHolds;
      LengthZero(lens);
      var codeword, k := 0, 0;
      var j := 1;
      while j <= 16
        invariant 1 <= j <= 17
        invariant k == Shorter(lens, |lens|, j) <= |lens|
        invariant codeword == FirstCode(lens, j) <= Pow2(j)
        invariant LengthsDone(lens, j) && CodesDone(lens, k)
        invariant j == 17 ==> EndCode(lens, 16) <= Pow2(16)
      {
        LengthStep(lens, j);
        delta[j] := k - codeword;
        var first := k;
        k, codeword := AssignLength(lens, j, k, codeword);
        if size[first] == j && codeword - 1 >= Shl(1, j) {
          Overfull(lens, j, 16);
          return false;
        }
        maxcode[j] := Shl(codeword, 16 - j);
        codeword := Shl(codeword, 1);
        j := j + 1;
      }
      maxcode[17] := 0xFFFF_FFFF;
      AllShorter(lens, 16);
      KraftIsEnd(lens, 16);
      CodesFit(lens, 16);
      ok := true;
    }

    /** The acceleration table: every nine-bit index that starts with a short code. */
    method FillFast(ghost lens: seq<nat>, k: nat)
      requires Shape() && SizesDone(lens) && k == |lens|
      requires Sorted(lens) && Positive(lens) && LengthsAtMost(lens, 16) && KraftHolds(lens, 16)
      requires forall i: nat :: i < |lens| ==> code[i] == CodeOf(lens, i)
      modifies fast
      ensures FastDone(lens, |lens|)
    {
      hide Shl, Shr, CodeOf, Pow2, KraftHolds, Matches, Low;
      forall t | 0 <= t < FAST_SIZE {
        fast[t] := NOT_FAST;
      }
      var i := 0;
      while i < k
        invariant 0 <= i <= k && FastDone(lens, i)
      {
        assert size[..|lens|][i] == lens[i];
        var s := size[i];
        ghost var was := fast[..];
        if s <= FAST_BITS {
          FastRange(lens, i);
          var c := Shl(code[i], FAST_BITS - s);
          var m := Shl(1, FAST_BITS - s);
          var j := 0;
          while j < m
            invariant 0 <= j <= m
            invariant forall t: nat :: t < FAST_SIZE ==>
              fast[t] == if c <= t < c + j then i else was[t]
          {
            fast[c + j] := i;
            j := j + 1;
          }
        } else {
          NoFastMatch(lens, i);
        }
        FastStep(lens, i, was, fast[..]);
        i := i + 1;
      }
    }
  }

  lemma NoFastMatch(lens: seq<nat>, i: nat)
    requires i < |lens| && lens[i] > FAST_BITS
    ensures forall t: nat :: !Matches(lens, i, t, FAST_BITS)
  {}

  /** The indices that start with a short code are an interval inside the table. */
  lemma FastRange(lens: seq<nat>, i: nat)
    requires i < |lens| && 0 < lens[i] <= FAST_BITS && KraftHolds(lens, 16)
    ensures var c, m := Shl(CodeOf(lens, i), FAST_BITS - lens[i]), Shl(1, FAST_BITS - lens[i]);
      && c + m <= FAST_SIZE
      && forall t: nat :: Matches(lens, i, t, FAST_BITS) <==> c <= t < c + m
  {
    hide Shl, Shr, CodeOf, Pow2, KraftHolds;
    var s := lens[i];
    CodeFits(lens, i, 16);
    ShlOne(FAST_BITS - s);
    Pow2Add(s, FAST_BITS - s);
    ShlLess(CodeOf(lens, i), Pow2(s), FAST_BITS - s);
    Pow2Nine();
    forall t: nat
      ensures Matches(lens, i, t, FAST_BITS) <==>
        Shl(CodeOf(lens, i), FAST_BITS - s) <= t < Shl(CodeOf(lens, i), FAST_BITS - s) + Shl(1, FAST_BITS - s)
    {
      ShrInterval(t, FAST_BITS - s, CodeOf(lens, i));
    }
  }

  lemma FastStep(lens: seq<nat>, i: nat, was: seq<nat>, now: seq<nat>)
    requires i < |lens| && |was| == |now| == FAST_SIZE
    requires forall t: nat :: t < FAST_SIZE ==> FastEntry(lens, i, t, was[t])
    requires forall t: nat :: t < FAST_SIZE ==>
      now[t] == if Matches(lens, i, t, FAST_BITS) then i else was[t]
    ensures forall t: nat :: t < FAST_SIZE ==> FastEntry(lens, i + 1, t, now[t])
  {
    hide Matches;
    forall t: nat | t < FAST_SIZE
      ensures FastEntry(lens, i + 1, t, now[t])
    {
      assert FastEntry(lens, i, t, was[t]);
    }
  }

  /** Accepted codes fit the 16-bit `code` member. */
  lemma CodesFit(lens: seq<nat>, w: nat)
    requires Positive(lens) && LengthsAtMost(lens, w) && w == 16
    ensures KraftHolds(lens, w) ==> forall i: nat :: i < |lens| ==> Low(CodeOf(lens, i), w) == CodeOf(lens, i)
  {
    hide CodeOf, Pow2, Low, KraftHolds;
    if KraftHolds(lens, w) {
      forall i: nat | i < |lens|
        ensures Low(CodeOf(lens, i), w) == CodeOf(lens, i)
      {
        CodeFits(lens, i, w);
        Pow2Monotone(lens[i], w);
        LowSmall(CodeOf(lens, i), w);
      }
    }
  }
}
