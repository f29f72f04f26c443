/**
 The DEFLATE Huffman table: `stbi__zhuffman` and its builder.

 Codes of at most nine bits are found by indexing `fast` with the next nine bits of the
 input as they sit in the bit buffer (first bit lowest); longer codes are found by
 comparing the reversed next sixteen bits with `maxcode`, the end of each code length
 shifted up to sixteen bits.
 */
module ZHuffman {
  import opened Bits
  import opened CanonicalCode

  const ZFAST_BITS: nat := 9
  const ZFAST_SIZE: nat := 512
  const ZNSYMS: nat := 288

  /** The `fast` index `t` starts with the reversed codeword of symbol `i`. */
  ghost predicate FastHit(lens: seq<nat>, i: nat, t: nat) {
    i < |lens| && 0 < lens[i] <= ZFAST_BITS && Low(t, lens[i]) == Rev(CodeOf(lens, i), lens[i])
  }

  /** What `fast[t]` holds once the first `n` symbols are entered. */
  ghost predicate FastEntry(lens: seq<nat>, n: nat, t: nat, v: nat) {
    || (v == 0 && forall i: nat :: i < n ==> !FastHit(lens, i, t))
    || exists i: nat :: i < n && FastHit(lens, i, t) && v == Shl(lens[i], 9) + i
  }

  /** On a bit buffer whose low nine bits are `t`, a hit is a match of the reversed buffer. */
  lemma FastHitIsMatch(lens: seq<nat>, i: nat, buffer: nat, w: nat)
    requires i < |lens| && 0 < lens[i] <= ZFAST_BITS <= w
    requires CodeOf(lens, i) < Pow2(lens[i])
    ensures FastHit(lens, i, Low(buffer, ZFAST_BITS)) <==> Matches(lens, i, Rev(buffer, w), w)
  {
    hide Low, Rev, Shr, Pow2, CodeOf;
    LowLow(buffer, lens[i], ZFAST_BITS);
    RevCompare(buffer, CodeOf(lens, i), lens[i], w);
  }

  /** Two table indices with the same low `s` bits are at least `2^s` apart. */
  lemma SameLow(t: nat, j: nat, s: nat)
    requires Low(t, s) == Low(j, s) && t != j
    ensures t + Pow2(s) <= j || j + Pow2(s) <= t
  {
    hide Low, Shr, Shl, Pow2;
    Decompose(t, s);
    Decompose(j, s);
    if Shr(t, s) < Shr(j, s) {
      ShlLess(Shr(t, s), Shr(j, s), s);
    } else if Shr(j, s) < Shr(t, s) {
      ShlLess(Shr(j, s), Shr(t, s), s);
    }
  }

  /** The 16-bit members hold first codes and first symbols without truncation. */
  lemma FitsHalfWord(lens: seq<nat>, l: nat, w: nat)
    requires 1 <= l < w == 16 && |lens| <= ZNSYMS && FirstCode(lens, l) <= Pow2(l)
    ensures Low(FirstCode(lens, l), w) == FirstCode(lens, l)
    ensures Low(Shorter(lens, |lens|, l), w) == Shorter(lens, |lens|, l)
  {
    hide Low, FirstCode, Shorter, Pow2;
    Pow2Monotone(l + 1, w);
    Pow2Double(l);
    Pow2Sixteen();
    ShorterBound(lens, |lens|, l);
    LowSmall(FirstCode(lens, l), w);
    LowSmall(Shorter(lens, |lens|, l), w);
  }

  /** The 16-bit `fast` word and the 8- and 16-bit symbol members hold their values. */
  lemma EntryFits(s: nat, i: nat, w: nat, b: nat)
    requires s <= 15 && i < ZNSYMS && w == 16 && b == 8
    ensures Low(BitOr(Shl(s, 9), i), w) == Shl(s, 9) + i
    ensures Low(s, b) == s && Low(i, w) == i
  {
    hide Low, Shl, Pow2, BitOr;
    ShlByte(s);
    ShlShl(s, 8, 1);
    ShlOneBit(Shl(s, 8));
    Pow2Sixteen();
    Pow2Nine();
    BitOrHigh(s, i, 9);
    LowSmall(Shl(s, 9) + i, w);
    LowSmall(i, w);
    LowSmall(s, b);
  }

  lemma FastNone(lens: seq<nat>)
    ensures forall t: nat :: FastEntry(lens, 0, t, 0)
  {}

  /** Entering symbol `i` at every index it hits keeps the table description. */
  lemma FastStep(lens: seq<nat>, i: nat, was: seq<nat>, now: seq<nat>)
    requires i < |lens| && |was| == |now| == ZFAST_SIZE
    requires forall t: nat :: t < ZFAST_SIZE ==> FastEntry(lens, i, t, was[t])
    requires forall t: nat :: t < ZFAST_SIZE ==>
      now[t] == if FastHit(lens, i, t) then Shl(lens[i], 9) + i else was[t]
    ensures forall t: nat :: t < ZFAST_SIZE ==> FastEntry(lens, i + 1, t, now[t])
  {
    hide FastHit, Shl;
    forall t: nat | t < ZFAST_SIZE
      ensures FastEntry(lens, i + 1, t, now[t])
    {
      assert FastEntry(lens, i, t, was[t]);
      if FastHit(lens, i, t) {
      } else if was[t] == 0 && (forall j: nat :: j < i ==> !FastHit(lens, j, t)) {
      } else {
        var j: nat :| j < i && FastHit(lens, j, t) && was[t] == Shl(lens[j], 9) + j;
      }
    }
  }

  /** A fast-table miss means the reversed word is at or above `maxcode[9]`. */
  lemma FastMiss(lens: seq<nat>, buffer: nat, w: nat)
    requires w == 16 && LengthsAtMost(lens, 15) && KraftHolds(lens, 15)
    requires forall i: nat :: i < |lens| ==> !FastHit(lens, i, Low(buffer, ZFAST_BITS))
    ensures Rev(buffer, w) >= Shl(EndCode(lens, ZFAST_BITS), w - ZFAST_BITS)
  {
    hide Shl, Shr, EndCode, CodeOf, Low, Rev, KraftHolds, FastHit, Pow2;
    var k := Rev(buffer, w);
    ShrInterval(k, w - ZFAST_BITS, EndCode(lens, ZFAST_BITS));
    if k < Shl(EndCode(lens, ZFAST_BITS), w - ZFAST_BITS) {
      var i := MatchExists(lens, k, w, ZFAST_BITS);
      CodeFits(lens, i, 15);
      FastHitIsMatch(lens, i, buffer, w);
      assert false;
    }
  }

  class ZTable {
    const fast: array<nat>
    const firstcode: array<nat>
    const maxcode: array<nat>
    const firstsymbol: array<nat>
    const size: array<nat>
    const value: array<nat>

    constructor ()
      ensures Shape()
      ensures fresh(fast) && fresh(firstcode) && fresh(maxcode)
      ensures fresh(firstsymbol) && fresh(size) && fresh(value)
    {
      fast := new nat[ZFAST_SIZE];
      firstcode := new nat[16];
      maxcode := new nat[17];
      firstsymbol := new nat[16];
      size := new nat[ZNSYMS];
      value := new nat[ZNSYMS];
    }

    /** The array bounds of the C struct, and its members not overlapping. */
    ghost predicate Shape() {
      && fast.Length == ZFAST_SIZE && firstcode.Length == 16 && maxcode.Length == 17
      && firstsymbol.Length == 16 && size.Length == ZNSYMS && value.Length == ZNSYMS
      && firstcode != firstsymbol && size != value
    }

    /** The per-length entries for lengths below `l`. */
    ghost predicate LengthsDone(lens: seq<nat>, l: nat)
      reads firstcode, maxcode, firstsymbol
      requires Shape() && l <= 16
    {
      forall j: nat :: 1 <= j < l ==>
        && firstcode[j] == FirstCode(lens, j)
        && firstsymbol[j] == Shorter(lens, |lens|, j)
        && maxcode[j] == Shl(EndCode(lens, j), 16 - j)
    }

    /** The sorted symbol list holds the first `n` symbols. */
    ghost predicate SymbolsDone(lens: seq<nat>, n: nat)
      reads size, value
      requires Shape() && n <= |lens|
    {
      forall i: nat :: i < n && lens[i] > 0 ==>
        Rank(lens, i) < ZNSYMS && size[Rank(lens, i)] == lens[i] && value[Rank(lens, i)] == i
    }

    ghost predicate FastDone(lens: seq<nat>, n: nat)
      reads fast
      requires Shape()
    {
      forall t: nat :: t < ZFAST_SIZE ==> FastEntry(lens, n, t, fast[t])
    }

    /** The table is the one for the code lengths `lens`. */
    ghost predicate Describes(lens: seq<nat>)
      reads fast, firstcode, maxcode, firstsymbol, size, value
    {
      && Shape()
      && |lens| <= ZNSYMS && LengthsAtMost(lens, 15) && KraftHolds(lens, 15)
      && LengthsDone(lens, 16) && maxcode[16] == 0x10000
      && SymbolsDone(lens, |lens|)
      && FastDone(lens, |lens|)
    }

    /** `stbi__zbuild_huffman` succeeds exactly when the code lengths satisfy the Kraft inequality. */
    method Build(sizelist: seq<nat>) returns (ok: bool)
      requires Shape() && |sizelist| <= ZNSYMS && LengthsAtMost(sizelist, 15)
      modifies fast, firstcode, maxcode, firstsymbol, size, value
      ensures ok <==> KraftHolds(sizelist, 15)
      ensures ok ==> Describes(sizelist)
    {
      var sizes := CountSizes(sizelist);
      forall t | 0 <= t < fast.Length {
        fast[t] := 0;
      }
      var i := 1;
      while i < 16
        invariant 1 <= i <= 16
        invariant forall t: nat :: t < ZFAST_SIZE ==> fast[t] == 0
      {
        if sizes[i] > Shl(1, i) {
          LengthStep(sizelist, i);
          Overfull(sizelist, i, 15);
          return false;
        }
        i := i + 1;
      }
      var nextCode;
      ok, nextCode := AssignCodes(sizelist, sizes);
      if ok {
        EnterSymbols(sizelist, nextCode);
      }
    }

    /** The counting loop. */
    method CountSizes(sizelist: seq<nat>) returns (sizes: array<nat>)
      requires LengthsAtMost(sizelist, 15)
      ensures fresh(sizes) && sizes.Length == 17
      ensures sizes[0] == 0
      ensures forall l: nat :: 1 <= l < 17 ==> sizes[l] == Count(sizelist, |sizelist|, l)
    {
      sizes := new nat[17](_ => 0);
      var i := 0;
      while i < |sizelist|
        invariant 0 <= i <= |sizelist|
        invariant forall l: nat :: l < 17 ==> sizes[l] == Count(sizelist, i, l)
      {
        sizes[sizelist[i]] := sizes[sizelist[i]] + 1;
        i := i + 1;
      }
      sizes[0] := 0;
    }

    /** The loop over lengths: first codes, first symbols and preshifted ends. */
    method AssignCodes(sizelist: seq<nat>, sizes: array<nat>) returns (ok: bool, nextCode: array<nat>)
      requires Shape() && |sizelist| <= ZNSYMS && LengthsAtMost(sizelist, 15)
      requires sizes.Length == 17
      requires forall l: nat :: 1 <= l < 17 ==> sizes[l] == Count(sizelist, |sizelist|, l)
      requires sizes != maxcode
      modifies firstcode, firstsymbol, maxcode
      ensures ok <==> KraftHolds(sizelist, 15)
      ensures fresh(nextCode) && nextCode.Length == 16
      ensures ok ==> LengthsDone(sizelist, 16) && maxcode[16] == 0x10000
      ensures ok ==> forall l: nat :: 1 <= l < 16 ==> nextCode[l] == FirstCode(sizelist, l)
    {
      hide Low, Shl, Pow2, Count, FirstCode, EndCode, Shorter, Kraft, KraftHolds;
      nextCode := new nat[16];
      LengthZero(sizelist);
      var code, k := 0, 0;
      var i := 1;
      while i < 16
        invariant 1 <= i <= 16
        invariant code == FirstCode(sizelist, i) && code <= Pow2(i)
        invariant k == Shorter(sizelist, |sizelist|, i)
        invariant LengthsDone(sizelist, i)
        invariant i == 16 ==> EndCode(sizelist, 15) <= Pow2(15)
        invariant forall l: nat :: 1 <= l < i ==> nextCode[l] == FirstCode(sizelist, l)
      {
        FitsHalfWord(sizelist, i, 16);
        LengthStep(sizelist, i);
        nextCode[i] := code;
        firstcode[i] := Low(code, 16);
        firstsymbol[i] := Low(k, 16);
        code := code + sizes[i];
        if sizes[i] != 0 && code - 1 >= Shl(1, i) {
          Overfull(sizelist, i, 15);
          return false, nextCode;
        }
        maxcode[i] := Shl(code, 16 - i);
        code := Shl(code, 1);
        k := k + sizes[i];
        i := i + 1;
      }
      maxcode[16] := 0x10000;
      ok := true;
      KraftIsEnd(sizelist, 15);
    }

    /** The loop over symbols. */
    method EnterSymbols(sizelist: seq<nat>, nextCode: array<nat>)
      requires Shape() && |sizelist| <= ZNSYMS && LengthsAtMost(sizelist, 15) && KraftHolds(sizelist, 15)
      requires LengthsDone(sizelist, 16)
      requires nextCode.Length == 16
      requires forall l: nat :: 1 <= l < 16 ==> nextCode[l] == FirstCode(sizelist, l)
      requires forall t: nat :: t < ZFAST_SIZE ==> fast[t] == 0
      requires nextCode != firstcode && nextCode != firstsymbol
      modifies fast, size, value, nextCode
      ensures SymbolsDone(sizelist, |sizelist|) && FastDone(sizelist, |sizelist|)
    {
      hide Low, Shl, Pow2, Count, FirstCode, EndCode, Shorter, Kraft, KraftHolds, BitOr, Rev, FastEntry;
      assert SymbolsDone(sizelist, 0);
      FastNone(sizelist);
      CountNone(sizelist);
      var i := 0;
      while i < |sizelist|
        invariant 0 <= i <= |sizelist|
        invariant LengthsDone(sizelist, 16)
        invariant forall l: nat :: 1 <= l < 16 ==>
          nextCode[l] == FirstCode(sizelist, l) + Count(sizelist, i, l)
        invariant SymbolsDone(sizelist, i)
        invariant FastDone(sizelist, i)
      {
        ghost var was := fast[..];
        var s := sizelist[i];
        CountNext(sizelist, i);
        if s != 0 {
          var c := nextCode[s] - firstcode[s] + firstsymbol[s];
          assert c == Rank(sizelist, i);
          RankBound(sizelist, i);
          forall j: nat | j < i && sizelist[j] > 0
            ensures Rank(sizelist, j) != c
          {
            RankInjective(sizelist, j, i);
          }
          EntryFits(s, i, 16, 8);
          var fastv := Low(BitOr(Shl(s, 9), i), 16);
          size[c] := Low(s, 8);
          value[c] := Low(i, 16);
          if s <= ZFAST_BITS {
            CodeFits(sizelist, i, 15);
            FillFast(nextCode[s], s, fastv);
          }
          nextCode[s] := nextCode[s] + 1;
        }
        FastStep(sizelist, i, was, fast[..]);
        i := i + 1;
      }
    }

    /** The inner loop: every `fast` index that starts with the reversed code. */
    method FillFast(code: nat, s: nat, fastv: nat)
      requires Shape() && 1 <= s <= ZFAST_BITS && code < Pow2(s)
      modifies fast
      ensures forall t: nat :: t < ZFAST_SIZE ==>
        fast[t] == if Low(t, s) == Rev(code, s) then fastv else old(fast[t])
    {
      hide Low, Pow2, Rev, Shr;
      BitReverseShort(code, s);
      var j := BitReverse(code, s);
      LowSmall(j, s);
      ShlOne(s);
      while j < ZFAST_SIZE
        invariant Low(j, s) == Rev(code, s)
        invariant forall t: nat :: t < ZFAST_SIZE && t < j ==>
          fast[t] == if Low(t, s) == Rev(code, s) then fastv else old(fast[t])
        invariant forall t: nat :: j <= t < ZFAST_SIZE ==> fast[t] == old(fast[t])
      {
        forall t: nat | j < t < j + Pow2(s)
          ensures Low(t, s) != Rev(code, s)
        {
          if Low(t, s) == Low(j, s) {
            SameLow(t, j, s);
          }
        }
        LowNext(j, s);
        fast[j] := fastv;
        j := j + Shl(1, s);
      }
    }
  }
}
