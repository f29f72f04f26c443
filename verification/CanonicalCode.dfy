/**
 Canonical prefix codes, as section 3.2.2 of RFC 1951 and annex C.2 of ITU-T T.81
 generate them from a list of code lengths.

 A code is described by `lens`: symbol `i` has a codeword of `lens[i]` bits, or none
 when `lens[i]` is zero.  Codewords of one length are consecutive, in symbol order,
 and the first codeword of a length is twice the end of the previous length.
 Nothing in this module refers to the decoders' tables.
 */
module CanonicalCode {
  import opened Bits

  /** How many of the first `n` symbols have a codeword of `l` bits. */
  function Count(lens: seq<nat>, n: nat, l: nat): (c: nat)
    requires n <= |lens|
    ensures c <= n
  {
    if n == 0 then 0 else Count(lens, n - 1, l) + if lens[n - 1] == l then 1 else 0
  }

  /** The numerically smallest codeword of `l` bits. */
  function FirstCode(lens: seq<nat>, l: nat): nat
    requires l >= 1
    decreases l, 0
  {
    if l == 1 then 0 else 2 * EndCode(lens, l - 1)
  }

  /** One more than the largest codeword of `l` bits. */
  function EndCode(lens: seq<nat>, l: nat): nat
    requires l >= 1
    decreases l, 1
  {
    FirstCode(lens, l) + Count(lens, |lens|, l)
  }

  /** The codeword of symbol `i`. */
  function CodeOf(lens: seq<nat>, i: nat): nat
    requires i < |lens| && lens[i] > 0
  {
    FirstCode(lens, lens[i]) + Count(lens, i, lens[i])
  }

  /** Symbol `i`'s codeword is a prefix of the `w`-bit word `k`, read from its top bit. */
  ghost predicate Matches(lens: seq<nat>, i: nat, k: nat, w: nat) {
    i < |lens| && 0 < lens[i] <= w && Shr(k, w - lens[i]) == CodeOf(lens, i)
  }

  /** The Kraft sum of the codewords of at most `m` bits, times `2^m`. */
  function Kraft(lens: seq<nat>, n: nat, m: nat): nat
    requires n <= |lens|
  {
    if n == 0 then 0
    else Kraft(lens, n - 1, m) + if 0 < lens[n - 1] <= m then Pow2(m - lens[n - 1]) else 0
  }

  ghost predicate LengthsAtMost(lens: seq<nat>, m: nat) {
    forall i :: 0 <= i < |lens| ==> lens[i] <= m
  }

  /** The Kraft inequality: the code lengths fit into `m` bits. */
  ghost predicate KraftHolds(lens: seq<nat>, m: nat) {
    Kraft(lens, |lens|, m) <= Pow2(m)
  }

  // ------------------------------------------------------------- the Kraft sum

  lemma {:induction false} KraftStep(lens: seq<nat>, n: nat, m: nat)
    requires n <= |lens| && m >= 1
    ensures Kraft(lens, n, m) == 2 * Kraft(lens, n, m - 1) + Count(lens, n, m)
  {
    if n > 0 {
      KraftStep(lens, n - 1, m);
    }
  }

  /** The end of the code is its Kraft sum. */
  lemma {:induction false} EndCodeIsKraft(lens: seq<nat>, m: nat)
    requires m >= 1
    ensures EndCode(lens, m) == Kraft(lens, |lens|, m)
  {
    KraftStep(lens, |lens|, m);
    if m == 1 {
      KraftZero(lens, |lens|);
    } else {
      EndCodeIsKraft(lens, m - 1);
    }
  }

  lemma {:induction false} KraftZero(lens: seq<nat>, n: nat)
    requires n <= |lens|
    ensures Kraft(lens, n, 0) == 0
  {
    if n > 0 {
      KraftZero(lens, n - 1);
    }
  }

  /** Padding the end of the shorter codewords never passes the end of the longer ones. */
  lemma {:induction false} EndCodeMonotone(lens: seq<nat>, l: nat, m: nat)
    requires 1 <= l <= m
    ensures Shl(EndCode(lens, l), m - l) <= EndCode(lens, m)
    ensures l < m ==> Shl(EndCode(lens, l), m - l) <= FirstCode(lens, m)
    decreases m
  {
    if l < m {
      EndCodeMonotone(lens, l, m - 1);
    }
  }

  /** When the whole code fits, every shorter part of it does. */
  lemma EndCodeBound(lens: seq<nat>, l: nat, m: nat)
    requires 1 <= l <= m && EndCode(lens, m) <= Pow2(m)
    ensures EndCode(lens, l) <= Pow2(l)
  {
    EndCodeMonotone(lens, l, m);
    Pow2Add(l, m - l);
    ShlCancel(EndCode(lens, l), Pow2(l), m - l);
  }

  // ---------------------------------------------------- ranks of the codewords

  lemma {:induction false} CountMonotone(lens: seq<nat>, n: nat, m: nat, l: nat)
    requires n <= m <= |lens|
    ensures Count(lens, n, l) <= Count(lens, m, l)
    ensures n < m && lens[n] == l ==> Count(lens, n, l) < Count(lens, m, l)
    decreases m
  {
    if n < m {
      CountMonotone(lens, n, m - 1, l);
    }
  }

  /** The `r`-th symbol of length `l` exists for each `r` below their number. */
  lemma {:induction false} NthSymbol(lens: seq<nat>, n: nat, l: nat, r: nat) returns (i: nat)
    requires n <= |lens| && r < Count(lens, n, l)
    ensures i < n && lens[i] == l && Count(lens, i, l) == r
  {
    if Count(lens, n - 1, l) == r {
      i := n - 1;
    } else {
      i := NthSymbol(lens, n - 1, l, r);
    }
  }

  /** A codeword lies between the ends of its length. */
  lemma CodeRange(lens: seq<nat>, i: nat)
    requires i < |lens| && lens[i] > 0
    ensures FirstCode(lens, lens[i]) <= CodeOf(lens, i) < EndCode(lens, lens[i])
  {
    CountMonotone(lens, i, |lens|, lens[i]);
  }

  /** Codewords fit their length when the Kraft inequality holds. */
  lemma CodeFits(lens: seq<nat>, i: nat, m: nat)
    requires i < |lens| && 0 < lens[i] <= m && KraftHolds(lens, m)
    ensures CodeOf(lens, i) < Pow2(lens[i])
  {
    CodeRange(lens, i);
    EndCodeIsKraft(lens, m);
    EndCodeBound(lens, lens[i], m);
  }

  lemma CodeInjective(lens: seq<nat>, i: nat, j: nat)
    requires i < |lens| && j < |lens| && lens[i] == lens[j] > 0
    requires CodeOf(lens, i) == CodeOf(lens, j)
    ensures i == j
  {
    if i < j {
      CountMonotone(lens, i, j, lens[i]);
    } else if j < i {
      CountMonotone(lens, j, i, lens[i]);
    }
  }

  // ------------------------------------------------ the code as a decoder sees it

  /** A word starts with a codeword of at most `l` bits only below the end of length `l`. */
  lemma MatchBelowEnd(lens: seq<nat>, i: nat, k: nat, w: nat, l: nat)
    requires Matches(lens, i, k, w) && lens[i] <= l <= w
    ensures Shr(k, w - l) < EndCode(lens, l)
  {
    var s := lens[i];
    CodeRange(lens, i);
    EndCodeMonotone(lens, s, l);
    ShrInterval(k, w - s, EndCode(lens, s));
    ShlShl(EndCode(lens, s), l - s, w - l);
    ShrInterval(k, w - l, Shl(EndCode(lens, s), l - s));
  }

  /** A word starts with a codeword of `lens[i]` bits only from the first such codeword on. */
  lemma MatchAboveFirst(lens: seq<nat>, i: nat, k: nat, w: nat)
    requires Matches(lens, i, k, w)
    ensures Shr(k, w - lens[i]) >= FirstCode(lens, lens[i])
  {
    CodeRange(lens, i);
  }

  /** No word starts with two codewords: the code is prefix-free. */
  lemma MatchUnique(lens: seq<nat>, i: nat, j: nat, k: nat, w: nat)
    requires Matches(lens, i, k, w) && Matches(lens, j, k, w)
    ensures i == j
  {
    if lens[i] == lens[j] {
      CodeInjective(lens, i, j);
    } else if lens[i] < lens[j] {
      MatchAboveFirst(lens, j, k, w);
      NoLongerMatch(lens, i, k, w, lens[j]);
    } else {
      MatchAboveFirst(lens, i, k, w);
      NoLongerMatch(lens, j, k, w, lens[i]);
    }
  }

  /** After a match, the word is below every longer codeword. */
  lemma NoLongerMatch(lens: seq<nat>, i: nat, k: nat, w: nat, l: nat)
    requires Matches(lens, i, k, w) && lens[i] < l <= w
    ensures Shr(k, w - l) < FirstCode(lens, l)
  {
    MatchBelowEnd(lens, i, k, w, l - 1);
    ShrShr(k, w - l, 1);
    ShrOne(Shr(k, w - l));
  }

  /** Every word below the end of length `l` starts with a codeword of at most `l` bits. */
  lemma {:induction false} MatchExists(lens: seq<nat>, k: nat, w: nat, l: nat) returns (i: nat)
    requires 1 <= l <= w && Shr(k, w - l) < EndCode(lens, l)
    ensures Matches(lens, i, k, w) && lens[i] <= l
    decreases l
  {
    var u := Shr(k, w - l);
    if u >= FirstCode(lens, l) {
      i := NthSymbol(lens, |lens|, l, u - FirstCode(lens, l));
    } else {
      ShrShr(k, w - l, 1);
      ShrOne(u);
      i := MatchExists(lens, k, w, l - 1);
    }
  }

  /** The symbol whose codeword starts the word, if there is one. */
  ghost function Decode(lens: seq<nat>, k: nat, w: nat): (r: int)
    ensures r >= 0 ==> Matches(lens, r, k, w)
    ensures r < 0 ==> r == -1 && forall i: nat :: !Matches(lens, i, k, w)
  {
    if exists i: nat :: Matches(lens, i, k, w) then
      var i: nat :| Matches(lens, i, k, w);
      i
    else -1
  }

  // ------------------------------------------------- symbols sorted by length

  /** Number of symbols among the first `n` whose codeword is shorter than `l` bits. */
  function Shorter(lens: seq<nat>, n: nat, l: nat): nat
    requires n <= |lens|
  {
    if l <= 1 then 0 else Shorter(lens, n, l - 1) + Count(lens, n, l - 1)
  }

  /** Position of symbol `i` when symbols are sorted by length, then by number. */
  function Rank(lens: seq<nat>, i: nat): nat
    requires i < |lens|
  {
    Shorter(lens, |lens|, lens[i]) + Count(lens, i, lens[i])
  }

  lemma {:induction false} ShorterStep(lens: seq<nat>, n: nat, l: nat)
    requires n < |lens|
    ensures Shorter(lens, n + 1, l) == Shorter(lens, n, l) + if 1 <= lens[n] < l then 1 else 0
    decreases l
  {
    if l > 1 {
      ShorterStep(lens, n, l - 1);
    }
  }

  lemma {:induction false} ShorterBound(lens: seq<nat>, n: nat, l: nat)
    requires n <= |lens|
    ensures Shorter(lens, n, l) <= n
  {
    if n > 0 {
      ShorterBound(lens, n - 1, l);
      ShorterStep(lens, n - 1, l);
    } else {
      ShorterEmpty(lens, l);
    }
  }

  lemma {:induction false} ShorterEmpty(lens: seq<nat>, l: nat)
    ensures Shorter(lens, 0, l) == 0
  {
    if l > 1 {
      ShorterEmpty(lens, l - 1);
    }
  }

  lemma {:induction false} ShorterMonotone(lens: seq<nat>, l: nat, m: nat)
    requires 1 <= l < m
    ensures Shorter(lens, |lens|, l) + Count(lens, |lens|, l) <= Shorter(lens, |lens|, m)
    decreases m
  {
    if l + 1 < m {
      ShorterMonotone(lens, l, m - 1);
    }
  }

  /** Ranks stay inside the table and inside the block of their length. */
  lemma RankBound(lens: seq<nat>, i: nat)
    requires i < |lens| && lens[i] > 0
    ensures Rank(lens, i) < Shorter(lens, |lens|, lens[i]) + Count(lens, |lens|, lens[i])
    ensures Rank(lens, i) < |lens|
  {
    CountMonotone(lens, i, |lens|, lens[i]);
    ShorterBound(lens, |lens|, lens[i] + 1);
  }

  /** Distinct symbols have distinct ranks, so no table entry is written twice. */
  lemma RankInjective(lens: seq<nat>, i: nat, j: nat)
    requires i < j < |lens| && lens[i] > 0 && lens[j] > 0
    ensures Rank(lens, i) != Rank(lens, j)
  {
    RankBound(lens, i);
    RankBound(lens, j);
    if lens[i] == lens[j] {
      CountMonotone(lens, i, j, lens[i]);
    } else if lens[i] < lens[j] {
      ShorterMonotone(lens, lens[i], lens[j]);
    } else {
      ShorterMonotone(lens, lens[j], lens[i]);
    }
  }

  lemma CountNone(lens: seq<nat>)
    ensures forall l: nat :: Count(lens, 0, l) == 0
  {}

  lemma CountNext(lens: seq<nat>, i: nat)
    requires i < |lens|
    ensures forall l: nat :: Count(lens, i + 1, l) == Count(lens, i, l) + if lens[i] == l then 1 else 0
  {}

  /** How first code, end and first symbol move from one length to the next. */
  lemma LengthStep(lens: seq<nat>, l: nat)
    requires 1 <= l
    ensures EndCode(lens, l) == FirstCode(lens, l) + Count(lens, |lens|, l)
    ensures FirstCode(lens, l + 1) == 2 * EndCode(lens, l) == Shl(EndCode(lens, l), 1)
    ensures Shorter(lens, |lens|, l + 1) == Shorter(lens, |lens|, l) + Count(lens, |lens|, l)
    ensures Pow2(l + 1) == 2 * Pow2(l) && Shl(1, l) == Pow2(l)
  {
    ShlOne(l);
    assert Shl(EndCode(lens, l), 0) == EndCode(lens, l);
  }

  lemma LengthZero(lens: seq<nat>)
    ensures FirstCode(lens, 1) == 0 && Shorter(lens, |lens|, 1) == 0 && Pow2(1) == 2
  {}

  lemma KraftIsEnd(lens: seq<nat>, m: nat)
    requires m >= 1
    ensures KraftHolds(lens, m) <==> EndCode(lens, m) <= Pow2(m)
  {
    hide EndCode, Kraft, Pow2;
    EndCodeIsKraft(lens, m);
  }

  /** Codewords of one length in a row. */
  lemma {:induction false} KraftRun(lens: seq<nat>, from: nat, n: nat, x: nat, m: nat)
    requires from <= n <= |lens| && 0 < x && forall i :: from <= i < n ==> lens[i] == x
    ensures Kraft(lens, n, m) == Kraft(lens, from, m) + (n - from) * (if x <= m then Pow2(m - x) else 0)
  {
    hide Pow2;
    if from < n {
      var d := if x <= m then Pow2(m - x) else 0;
      assert Kraft(lens, n, m) == Kraft(lens, n - 1, m) + d;
      hide Kraft;
      KraftRun(lens, from, n - 1, x, m);
      var c := n - 1 - from;
      assert (c + 1) * d == c * d + d;
    }
  }

  /** A length whose codewords run past its last one breaks the Kraft inequality. */
  lemma Overfull(lens: seq<nat>, l: nat, m: nat)
    requires 1 <= l <= m && EndCode(lens, l) > Pow2(l)
    ensures !KraftHolds(lens, m)
  {
    hide EndCode, Pow2, KraftHolds;
    KraftIsEnd(lens, m);
    if EndCode(lens, m) <= Pow2(m) {
      EndCodeBound(lens, l, m);
    }
  }

  /** Where the slow path stops, the word starts with a codeword of exactly that length. */
  lemma SlowHit(lens: seq<nat>, k: nat, s: nat, w: nat) returns (i: nat)
    requires 2 <= s <= w
    requires Shr(k, w - s) < EndCode(lens, s) && EndCode(lens, s - 1) <= Shr(k, w - (s - 1))
    ensures Matches(lens, i, k, w) && lens[i] == s
    ensures Shr(k, w - s) >= FirstCode(lens, s)
    ensures Rank(lens, i) == Shr(k, w - s) - FirstCode(lens, s) + Shorter(lens, |lens|, s)
  {
    hide Shr, FirstCode, Count, Shorter, EndCode;
    i := MatchExists(lens, k, w, s);
    if lens[i] < s {
      MatchBelowEnd(lens, i, k, w, s - 1);
      assert false;
    }
    MatchAboveFirst(lens, i, k, w);
  }

  /** A word at or above the preshifted end of length `l` starts with no shorter codeword. */
  lemma AboveEnd(lens: seq<nat>, k: nat, l: nat, w: nat)
    requires 1 <= l <= w && k >= Shl(EndCode(lens, l), w - l)
    ensures forall i: nat :: Matches(lens, i, k, w) ==> lens[i] > l
    ensures Shr(k, w - l) >= EndCode(lens, l)
  {
    hide Shl, Shr, EndCode, CodeOf;
    ShrInterval(k, w - l, EndCode(lens, l));
    forall i: nat | Matches(lens, i, k, w)
      ensures lens[i] > l
    {
      if lens[i] <= l {
        MatchBelowEnd(lens, i, k, w, l);
        assert false;
      }
    }
  }

  // ---------------------------------------------------------- codewords as fractions

  /** The Kraft sum, times `2^m`, of the codewords that come before `i`'s: shorter ones, and earlier ones of its length. */
  function Before(lens: seq<nat>, i: nat, n: nat, m: nat): nat
    requires i < |lens| && n <= |lens|
  {
    if n == 0 then 0
    else
      var j := n - 1;
      Before(lens, i, j, m)
      + if 0 < lens[j] <= m && (lens[j] < lens[i] || (lens[j] == lens[i] && j < i)) then Pow2(m - lens[j]) else 0
  }

  lemma {:induction false} BeforeIs(lens: seq<nat>, i: nat, n: nat)
    requires i < |lens| && lens[i] > 0 && n <= |lens|
    ensures Before(lens, i, n, lens[i])
      == 2 * Kraft(lens, n, lens[i] - 1) + Count(lens, if n < i then n else i, lens[i])
  {
    if n > 0 {
      BeforeIs(lens, i, n - 1);
    }
  }

  lemma {:induction false} BeforeScales(lens: seq<nat>, i: nat, n: nat, m: nat)
    requires i < |lens| && 0 < lens[i] <= m && n <= |lens|
    ensures Before(lens, i, n, m) == Shl(Before(lens, i, n, lens[i]), m - lens[i])
  {
    hide Pow2, Shl;
    var l := lens[i];
    if n == 0 {
      ShlZero(m - l);
    } else {
      BeforeScales(lens, i, n - 1, m);
      if 0 < lens[n - 1] <= l {
        Pow2Add(l - lens[n - 1], m - l);
        ShlPlus(Before(lens, i, n - 1, l), Pow2(l - lens[n - 1]), m - l);
      }
    }
  }

  /**
   A codeword, as a binary fraction, is the sum of `2^-length` over all codewords before it:
   codes are given out by length and then by symbol, with no gaps.
   */
  lemma CodeIsSum(lens: seq<nat>, i: nat, m: nat)
    requires i < |lens| && 0 < lens[i] <= m
    ensures Shl(CodeOf(lens, i), m - lens[i]) == Before(lens, i, |lens|, m)
  {
    hide Kraft, Before, Count, Shl;
    BeforeIs(lens, i, |lens|);
    BeforeScales(lens, i, |lens|, m);
    if lens[i] > 1 {
      EndCodeIsKraft(lens, lens[i] - 1);
    } else {
      KraftZero(lens, |lens|);
    }
  }

  /** Symbols of one length in a row. */
  lemma {:induction false} CountRun(lens: seq<nat>, from: nat, n: nat, x: nat, l: nat)
    requires from <= n <= |lens| && forall i :: from <= i < n ==> lens[i] == x
    ensures Count(lens, n, l) == Count(lens, from, l) + if x == l then n - from else 0
  {
    if from < n {
      CountRun(lens, from, n - 1, x, l);
    }
  }
}
