/**
 What DEFLATE data means (RFC 1951), bit by bit.

 The input is the infinite bit string of the bytes, low bit first, followed by zeros.
 A Huffman-coded block is a sequence of tokens, each appending to the output; the code
 lengths of a dynamic block are a sequence of run-length items.  Both are given as
 one-step functions and their iteration.  There are no buffers or tables here.
 */
module Deflate {
  import opened Bits
  import opened CanonicalCode

  // ------------------------------------------------------------- the bit string

  /** Bit `p` of the input (section 3.1.1). */
  function Bit(data: seq<Byte>, p: nat): (b: nat)
    ensures b < 2
  {
    if p / 8 < |data| then Shr(data[p / 8], p % 8) % 2 else 0
  }

  /** `n` bits from position `p` as a number, first bit lowest (extra bits, headers). */
  function BitsLsb(data: seq<Byte>, p: nat, n: nat): (v: nat)
    ensures v < Pow2(n)
    decreases n
  {
    if n == 0 then 0 else Bit(data, p) + 2 * BitsLsb(data, p + 1, n - 1)
  }

  /** `n` bits from position `p` as a number, first bit highest (Huffman codes). */
  function BitsMsb(data: seq<Byte>, p: nat, n: nat): (v: nat)
    ensures v < Pow2(n)
  {
    if n == 0 then 0 else 2 * BitsMsb(data, p, n - 1) + Bit(data, p + n - 1)
  }

  /** The bits at `p` start with the codeword of symbol `i`. */
  ghost predicate CodewordAt(lens: seq<nat>, i: nat, data: seq<Byte>, p: nat) {
    i < |lens| && lens[i] > 0 && BitsMsb(data, p, lens[i]) == CodeOf(lens, i)
  }

  ghost predicate NoCodewordAt(lens: seq<nat>, data: seq<Byte>, p: nat) {
    forall i: nat :: !CodewordAt(lens, i, data, p)
  }

  /** The symbol whose codeword is next, or -1. */
  ghost function SymbolAt(lens: seq<nat>, data: seq<Byte>, p: nat): (r: int)
    ensures r >= 0 ==> CodewordAt(lens, r, data, p)
    ensures r < 0 ==> r == -1 && NoCodewordAt(lens, data, p)
  {
    if exists i: nat :: CodewordAt(lens, i, data, p) then
      var i: nat :| CodewordAt(lens, i, data, p);
      i
    else -1
  }

  // -------------------------------------------------- literals, lengths, distances

  function LengthBase(z: nat): (r: nat)
    requires z < 29
    ensures 3 <= r <= 258
  {
    [3, 4, 5, 6, 7, 8, 9, 10, 11, 13,
     15, 17, 19, 23, 27, 31, 35, 43, 51, 59,
     67, 83, 99, 115, 131, 163, 195, 227, 258][z]
  }

  function LengthExtra(z: nat): (r: nat)
    requires z < 29
    ensures r <= 5
  {
    [0, 0, 0, 0, 0, 0, 0, 0, 1, 1,
     1, 1, 2, 2, 2, 2, 3, 3, 3, 3,
     4, 4, 4, 4, 5, 5, 5, 5, 0][z]
  }

  function DistBase(z: nat): (r: nat)
    requires z < 30
    ensures 1 <= r <= 24577
  {
    [1, 2, 3, 4, 5, 7, 9, 13, 17, 25,
     33, 49, 65, 97, 129, 193, 257, 385, 513, 769,
     1025, 1537, 2049, 3073, 4097, 6145, 8193, 12289, 16385, 24577][z]
  }

  function DistExtra(z: nat): (r: nat)
    requires z < 30
    ensures r <= 13
  {
    [0, 0, 0, 0, 1, 1, 2, 2, 3, 3,
     4, 4, 5, 5, 6, 6, 7, 7, 8, 8,
     9, 9, 10, 10, 11, 11, 12, 12, 13, 13][z]
  }

  /** Append `len` bytes, each the one `dist` back in the output so far (section 3.2.3). */
  function Copy(out: seq<Byte>, dist: nat, len: nat): (r: seq<Byte>)
    requires 1 <= dist <= |out|
    ensures |r| == |out| + len && r[..|out|] == out
    decreases len
  {
    if len == 0 then out
    else
      var next := out + [out[|out| - dist]];
      Copy(next, dist, len - 1)
  }

  datatype State = State(pos: nat, out: seq<Byte>)

  datatype Outcome =
    | More(st: State)
    | Done(st: State)
    | BadCode
    | BadDistance

  /** One token of a Huffman-coded block. */
  ghost function Token(lit: seq<nat>, dist: seq<nat>, data: seq<Byte>, st: State): Outcome {
    var sym := SymbolAt(lit, data, st.pos);
    if sym < 0 then BadCode
    else
      var p := st.pos + lit[sym];
      if sym < 256 then More(State(p, st.out + [sym]))
      else if sym == 256 then Done(State(p, st.out))
      else if sym >= 286 then BadCode
      else MatchToken(dist, data, p, st.out, sym - 257)
  }

  /** The rest of a token whose length code is `z`. */
  ghost function MatchToken(dist: seq<nat>, data: seq<Byte>, p: nat, out: seq<Byte>, z: nat): Outcome
    requires z < 29
  {
    var len := LengthBase(z) + BitsLsb(data, p, LengthExtra(z));
    var q := p + LengthExtra(z);
    var sym := SymbolAt(dist, data, q);
    if sym < 0 || sym >= 30 then BadCode
    else
      var d := DistBase(sym) + BitsLsb(data, q + dist[sym], DistExtra(sym));
      if d > |out| then BadDistance
      else More(State(q + dist[sym] + DistExtra(sym), Copy(out, d, len)))
  }

  /** The first `n` tokens of a block. */
  ghost function Tokens(lit: seq<nat>, dist: seq<nat>, data: seq<Byte>, st: State, n: nat): Outcome {
    if n == 0 then More(st)
    else
      match Tokens(lit, dist, data, st, n - 1)
      case More(s) => Token(lit, dist, data, s)
      case r => r
  }

  // ------------------------------------------------------ code lengths of a block

  datatype Lengths = Lengths(pos: nat, lens: seq<nat>) | BadLengths

  function Repeat(x: nat, n: nat): (r: seq<nat>)
    ensures |r| == n && forall i :: 0 <= i < n ==> r[i] == x
  {
    seq(n, _ => x)
  }

  /** Number of extra bits and smallest count of the repeat codes 16, 17 and 18. */
  function RepeatExtra(c: nat): (r: nat)
    ensures r <= 7
  {
    if c == 16 then 2 else if c == 17 then 3 else 7
  }

  function RepeatBase(c: nat): (r: nat)
    ensures r >= 3
  {
    if c == 18 then 11 else 3
  }

  /** One item of the run-length coded lengths (section 3.2.7). */
  ghost function LengthItem(cl: seq<nat>, data: seq<Byte>, ntot: nat, p: nat, lens: seq<nat>): Lengths {
    var c := SymbolAt(cl, data, p);
    if c < 0 || c >= 19 then BadLengths
    else if c < 16 then Lengths(p + cl[c], lens + [c])
    else if c == 16 && |lens| == 0 then BadLengths
    else RepeatItem(data, ntot, p + cl[c], lens, c)
  }

  /** A repeat of the previous length (16) or of zero (17, 18). */
  ghost function RepeatItem(data: seq<Byte>, ntot: nat, q: nat, lens: seq<nat>, c: nat): Lengths
    requires c == 16 ==> |lens| > 0
  {
    var fill := if c == 16 then lens[|lens| - 1] else 0;
    var n := RepeatBase(c) + BitsLsb(data, q, RepeatExtra(c));
    if ntot - |lens| < n then BadLengths
    else Lengths(q + RepeatExtra(c), lens + Repeat(fill, n))
  }

  /** Items until there are `ntot` lengths. */
  ghost function LengthItems(cl: seq<nat>, data: seq<Byte>, ntot: nat, p: nat, lens: seq<nat>): (r: Lengths)
    requires |lens| <= ntot
    ensures r.Lengths? ==> |r.lens| == ntot && lens <= r.lens
    decreases ntot - |lens|
  {
    if |lens| == ntot then Lengths(p, lens)
    else
      match LengthItem(cl, data, ntot, p, lens)
      case BadLengths => BadLengths
      case Lengths(q, more) => LengthItems(cl, data, ntot, q, more)
  }

  /** The order in which the lengths of the code-length code are sent. */
  function Dezigzag(i: nat): (r: nat)
    requires i < 19
    ensures r < 19
  {
    [16, 17, 18, 0, 8, 7, 9, 6, 10, 5, 11, 4, 12, 3, 13, 2, 14, 1, 15][i]
  }

  /** When the length of code-length symbol `s` is sent. */
  function SentAt(s: nat): (r: nat)
    requires s < 19
    ensures r < 19 && Dezigzag(r) == s
  {
    [3, 17, 15, 13, 11, 9, 7, 5, 4, 6, 8, 10, 12, 14, 16, 18, 0, 1, 2][s]
  }

  lemma SentAtDezigzag(i: nat)
    requires i < 19
    ensures SentAt(Dezigzag(i)) == i
  {}

  /** Lengths of the code-length code, of which `hclen` are sent from position `p` on. */
  function CodeLengthCode(data: seq<Byte>, p: nat, hclen: nat): (r: seq<nat>)
    ensures |r| == 19
  {
    seq(19, s requires 0 <= s < 19 =>
      if SentAt(s) < hclen then BitsLsb(data, p + 3 * SentAt(s), 3) else 0)
  }

  datatype Tables = Tables(pos: nat, lit: seq<nat>, dist: seq<nat>) | BadTables

  function HeaderLit(data: seq<Byte>, p: nat): nat {
    BitsLsb(data, p, 5) + 257
  }

  function HeaderDist(data: seq<Byte>, p: nat): nat {
    BitsLsb(data, p + 5, 5) + 1
  }

  /** The header of a dynamic block and the code lengths it introduces (section 3.2.7). */
  ghost function DynamicLengths(data: seq<Byte>, p: nat): (r: Lengths)
    ensures r.Lengths? ==> |r.lens| == HeaderLit(data, p) + HeaderDist(data, p)
  {
    var hclen := BitsLsb(data, p + 10, 4) + 4;
    var cl := CodeLengthCode(data, p + 14, hclen);
    if !KraftHolds(cl, 15) then BadLengths
    else LengthItems(cl, data, HeaderLit(data, p) + HeaderDist(data, p), p + 14 + 3 * hclen, [])
  }

  /** The two codes at the start of a dynamic block. */
  ghost function DynamicTables(data: seq<Byte>, p: nat): Tables {
    match DynamicLengths(data, p)
    case BadLengths => BadTables
    case Lengths(q, lens) =>
      var lit, dist := lens[..HeaderLit(data, p)], lens[HeaderLit(data, p)..];
      if KraftHolds(lit, 15) && KraftHolds(dist, 15) then Tables(q, lit, dist) else BadTables
  }

  /** Code lengths of a block with fixed codes (section 3.2.6). */
  function FixedLit(): (r: seq<nat>)
    ensures |r| == 288
  {
    seq(288, i => if i < 144 then 8 else if i < 256 then 9 else if i < 280 then 7 else 8)
  }

  function FixedDist(): (r: seq<nat>)
    ensures |r| == 32
  {
    seq(32, _ => 5)
  }

  // ------------------------------------------------------------------- the stream

  /** The next multiple of eight. */
  function Aligned(p: nat): nat {
    (p + 7) / 8 * 8
  }

  /** A stored block whose three header bits end at `p` (section 3.2.4). */
  ghost predicate Stored(data: seq<Byte>, p: nat, out: seq<Byte>, st: State) {
    var q := Aligned(p);
    var len := BitsLsb(data, q, 16);
    var from := q / 8 + 4;
    && BitsLsb(data, q + 16, 16) == 0xFFFF - len
    && from + len <= |data|
    && st == State(q + 32 + 8 * len, out + data[from..from + len])
  }

  /** A Huffman-coded block whose tokens start at `p`. */
  ghost predicate Coded(lit: seq<nat>, dist: seq<nat>, data: seq<Byte>, p: nat, out: seq<Byte>, st: State) {
    exists n: nat :: Tokens(lit, dist, data, State(p, out), n) == Done(st)
  }

  /** A block of type `kind` whose three header bits end at `p` takes the output to `b`. */
  ghost predicate Body(kind: nat, data: seq<Byte>, p: nat, out: seq<Byte>, b: State) {
    match kind
    case 0 => Stored(data, p, out, b)
    case 1 => Coded(FixedLit(), FixedDist(), data, p, out, b)
    case 2 =>
      var t := DynamicTables(data, p);
      t.Tables? && Coded(t.lit, t.dist, data, t.pos, out, b)
    case _ => false
  }

  /** One block of the stream takes `a` to `b` (section 3.2.3). */
  ghost predicate Block(data: seq<Byte>, a: State, b: State, last: bool) {
    && (last <==> BitsLsb(data, a.pos, 1) == 1)
    && Body(BitsLsb(data, a.pos + 1, 2), data, a.pos + 3, a.out, b)
  }

  /** The states between the blocks of a whole stream. */
  ghost predicate Inflated(data: seq<Byte>, chain: seq<State>) {
    && |chain| >= 2
    && forall i :: 0 <= i < |chain| - 1 ==> Block(data, chain[i], chain[i + 1], i == |chain| - 2)
  }

  // ------------------------------------------------ the meaning is single-valued

  /** Once a block has ended it stays ended, so its end is unique. */
  lemma {:induction false} TokensStable(lit: seq<nat>, dist: seq<nat>, data: seq<Byte>, st: State, n: nat, m: nat)
    requires n <= m && !Tokens(lit, dist, data, st, n).More?
    ensures Tokens(lit, dist, data, st, m) == Tokens(lit, dist, data, st, n)
    decreases m
  {
    hide Token;
    if n < m {
      TokensStable(lit, dist, data, st, n, m - 1);
    }
  }

  lemma CodedUnique(lit: seq<nat>, dist: seq<nat>, data: seq<Byte>, p: nat, out: seq<Byte>, b: State, c: State)
    requires Coded(lit, dist, data, p, out, b) && Coded(lit, dist, data, p, out, c)
    ensures b == c
  {
    hide Tokens;
    var n: nat :| Tokens(lit, dist, data, State(p, out), n) == Done(b);
    var m: nat :| Tokens(lit, dist, data, State(p, out), m) == Done(c);
    if n <= m {
      TokensStable(lit, dist, data, State(p, out), n, m);
    } else {
      TokensStable(lit, dist, data, State(p, out), m, n);
    }
  }

  lemma BlockUnique(data: seq<Byte>, a: State, b: State, c: State, last: bool, last': bool)
    requires Block(data, a, b, last) && Block(data, a, c, last')
    ensures b == c && last == last'
  {
    hide Coded, DynamicTables, BitsLsb, FixedLit, FixedDist;
    var p := a.pos + 3;
    match BitsLsb(data, a.pos + 1, 2) {
      case 0 =>
      case 1 => CodedUnique(FixedLit(), FixedDist(), data, p, a.out, b, c);
      case 2 =>
        var t := DynamicTables(data, p);
        CodedUnique(t.lit, t.dist, data, t.pos, a.out, b, c);
      case _ =>
    }
  }

  /** A stream has at most one decoding: the output depends on the input bits alone. */
  lemma {:induction false} InflatedUnique(data: seq<Byte>, c: seq<State>, d: seq<State>)
    requires Inflated(data, c) && Inflated(data, d) && c[0] == d[0]
    ensures c == d
    decreases |c|
  {
    hide Block;
    assert Block(data, c[0], c[1], 0 == |c| - 2) && Block(data, d[0], d[1], 0 == |d| - 2);
    BlockUnique(data, c[0], c[1], d[1], 0 == |c| - 2, 0 == |d| - 2);
    if |c| > 2 {
      TailInflated(data, c);
      TailInflated(data, d);
      InflatedUnique(data, c[1..], d[1..]);
      assert c == [c[0]] + c[1..] && d == [d[0]] + d[1..];
    }
  }

  lemma TailInflated(data: seq<Byte>, c: seq<State>)
    requires Inflated(data, c) && |c| > 2
    ensures Inflated(data, c[1..])
  {
    hide Block;
    var t := c[1..];
    forall i | 0 <= i < |t| - 1
      ensures Block(data, t[i], t[i + 1], i == |t| - 2)
    {
      assert Block(data, c[i + 1], c[i + 2], i + 1 == |c| - 2);
    }
  }

  // ------------------------------------------- positions and output only move forward

  /** What a token comes to is not before `st`, in the input or in the output. */
  ghost predicate Forward(t: Outcome, st: State) {
    (t.More? || t.Done?) ==> st.pos <= t.st.pos && |st.out| <= |t.st.out|
  }

  lemma MatchForward(dist: seq<nat>, data: seq<Byte>, p: nat, out: seq<Byte>, z: nat)
    requires z < 29
    ensures Forward(MatchToken(dist, data, p, out, z), State(p + LengthExtra(z), out))
  {
    hide SymbolAt, BitsLsb, Copy, LengthBase, LengthExtra, DistBase, DistExtra;
  }

  lemma TokenForward(lit: seq<nat>, dist: seq<nat>, data: seq<Byte>, st: State)
    ensures Forward(Token(lit, dist, data, st), st)
  {
    hide SymbolAt, MatchToken, LengthExtra;
    var sym := SymbolAt(lit, data, st.pos);
    if 257 <= sym < 286 {
      MatchForward(dist, data, st.pos + lit[sym], st.out, sym - 257);
    }
  }

  lemma {:induction false} TokensForward(lit: seq<nat>, dist: seq<nat>, data: seq<Byte>, st: State, n: nat, m: nat)
    requires n <= m && (Tokens(lit, dist, data, st, m).More? || Tokens(lit, dist, data, st, m).Done?)
    ensures var a := Tokens(lit, dist, data, st, n);
      (a.More? || a.Done?) && Forward(Tokens(lit, dist, data, st, m), a.st)
    decreases m
  {
    hide Token;
    if n < m {
      var b := Tokens(lit, dist, data, st, m - 1);
      if b.More? {
        TokenForward(lit, dist, data, b.st);
      }
      TokensForward(lit, dist, data, st, n, m - 1);
    }
  }

  lemma CodedForward(lit: seq<nat>, dist: seq<nat>, data: seq<Byte>, p: nat, out: seq<Byte>, b: State)
    requires Coded(lit, dist, data, p, out, b)
    ensures p <= b.pos && |out| <= |b.out|
  {
    assert Tokens(lit, dist, data, State(p, out), 0) == More(State(p, out));
    hide Tokens;
    var m: nat :| Tokens(lit, dist, data, State(p, out), m) == Done(b);
    TokensForward(lit, dist, data, State(p, out), 0, m);
  }

  lemma {:induction false} LengthItemsForward(cl: seq<nat>, data: seq<Byte>, ntot: nat, p: nat, lens: seq<nat>)
    requires |lens| <= ntot
    ensures var r := LengthItems(cl, data, ntot, p, lens); r.Lengths? ==> p <= r.pos
    decreases ntot - |lens|
  {
    hide SymbolAt, BitsLsb, RepeatBase, RepeatExtra, Repeat;
    if |lens| < ntot {
      var item := LengthItem(cl, data, ntot, p, lens);
      if item.Lengths? {
        LengthItemsForward(cl, data, ntot, item.pos, item.lens);
      }
    }
  }

  lemma TablesForward(data: seq<Byte>, p: nat)
    ensures var t := DynamicTables(data, p); t.Tables? ==> p <= t.pos
  {
    hide BitsLsb, KraftHolds, LengthItems, CodeLengthCode;
    var hclen := BitsLsb(data, p + 10, 4) + 4;
    LengthItemsForward(CodeLengthCode(data, p + 14, hclen), data, HeaderLit(data, p) + HeaderDist(data, p),
                       p + 14 + 3 * hclen, []);
  }

  lemma BlockForward(data: seq<Byte>, a: State, b: State, last: bool)
    requires Block(data, a, b, last)
    ensures a.pos <= b.pos && |a.out| <= |b.out|
  {
    hide Coded, DynamicTables, BitsLsb, FixedLit, FixedDist;
    var p := a.pos + 3;
    match BitsLsb(data, a.pos + 1, 2) {
      case 0 =>
      case 1 => CodedForward(FixedLit(), FixedDist(), data, p, a.out, b);
      case 2 =>
        var t := DynamicTables(data, p);
        TablesForward(data, p);
        CodedForward(t.lit, t.dist, data, t.pos, a.out, b);
      case _ =>
    }
  }

  lemma {:induction false} ChainForward(data: seq<Byte>, c: seq<State>, i: nat)
    requires Inflated(data, c) && i < |c|
    ensures c[i].pos <= c[|c| - 1].pos && |c[i].out| <= |c[|c| - 1].out|
    decreases |c| - i
  {
    hide Block;
    if i < |c| - 1 {
      assert Block(data, c[i], c[i + 1], i == |c| - 2);
      BlockForward(data, c[i], c[i + 1], i == |c| - 2);
      ChainForward(data, c, i + 1);
    }
  }

  /** The blocks before the last of any decoding of the stream are those of every other. */
  lemma {:induction false} ChainPrefix(data: seq<Byte>, c: seq<State>, chain: seq<State>)
    requires Inflated(data, c) && |chain| >= 1 && chain[0] == c[0]
    requires forall i :: 0 <= i < |chain| - 1 ==> Block(data, chain[i], chain[i + 1], false)
    ensures |chain| < |c| && chain == c[..|chain|]
    decreases |chain|
  {
    hide Block;
    if |chain| > 1 {
      var k := |chain| - 1;
      ChainPrefix(data, c, chain[..k]);
      assert Block(data, chain[k - 1], chain[k], false);
      assert Block(data, c[k - 1], c[k], k - 1 == |c| - 2);
      assert chain[k - 1] == c[k - 1];
      BlockUnique(data, chain[k - 1], chain[k], c[k], false, k - 1 == |c| - 2);
    }
  }

  lemma FixedRuns(lens: seq<nat>)
    requires |lens| == 288
    requires (forall i :: 0 <= i < 144 ==> lens[i] == 8) && (forall i :: 144 <= i < 256 ==> lens[i] == 9)
    requires (forall i :: 256 <= i < 280 ==> lens[i] == 7) && (forall i :: 280 <= i < 288 ==> lens[i] == 8)
    ensures Kraft(lens, 288, 15) == 32768
  {
    assert Kraft(lens, 0, 15) == 0;
    hide Pow2, Kraft;
    Pow2Table();
    KraftRun(lens, 0, 144, 8, 15);
    KraftRun(lens, 144, 256, 9, 15);
    KraftRun(lens, 256, 280, 7, 15);
    KraftRun(lens, 280, 288, 8, 15);
  }

  /** The fixed codes fill the code space exactly. */
  lemma FixedCodesHold()
    ensures KraftHolds(FixedLit(), 15) && KraftHolds(FixedDist(), 15)
  {
    assert Kraft(FixedDist(), 0, 15) == 0;
    hide Pow2, Kraft;
    Pow2Table();
    Pow2Fifteen();
    FixedRuns(FixedLit());
    KraftRun(FixedDist(), 0, 32, 5, 15);
  }

  lemma Pow2Fifteen()
    ensures Pow2(15) == 32768
  {
    Pow2Table();
  }

  lemma CopyStep(out: seq<Byte>, dist: nat, n: nat)
    requires 1 <= dist <= |out| && n > 0
    ensures Copy(out, dist, n) == Copy(out + [out[|out| - dist]], dist, n - 1)
  {}

  /** An overlapping match repeats the last `dist` bytes periodically. */
  lemma {:induction false} CopyPeriodic(out: seq<Byte>, dist: nat, len: nat, k: nat)
    requires 1 <= dist <= |out| && k < len
    ensures Copy(out, dist, len)[|out| + k] == out[|out| - dist + k % dist]
    decreases len
  {
    hide Copy;
    var next := out + [out[|out| - dist]];
    var whole := Copy(out, dist, len);
    CopyStep(out, dist, len);
    if k == 0 {
      assert whole[..|next|][|out|] == next[|out|];
    } else {
      CopyPeriodic(next, dist, len - 1, k - 1);
      ModStep(k, dist);
      var r := (k - 1) % dist;
      assert whole[|out| + k] == next[|out| + 1 - dist + r];
    }
  }

  lemma ModStep(k: nat, d: nat)
    requires k > 0 && d > 0
    ensures k % d == if (k - 1) % d == d - 1 then 0 else (k - 1) % d + 1
  {
    var q, r := (k - 1) / d, (k - 1) % d;
    if r == d - 1 {
      assert k == d * (q + 1);
      DivMod(k, d, q + 1, 0);
    } else {
      assert k == d * q + (r + 1);
      DivMod(k, d, q, r + 1);
    }
  }

  // ------------------------------------------------------- facts about the bits

  lemma {:induction false} BitsMsbFront(data: seq<Byte>, p: nat, n: nat)
    ensures BitsMsb(data, p, n + 1) == Shl(Bit(data, p), n) + BitsMsb(data, p + 1, n)
  {
    if n == 0 {
      assert BitsMsb(data, p, 0) == 0;
    } else {
      BitsMsbFront(data, p, n - 1);
    }
  }

  lemma BitsStep(data: seq<Byte>, p: nat, n: nat)
    ensures BitsLsb(data, p, 0) == BitsMsb(data, p, 0) == 0
    ensures n > 0 ==> BitsLsb(data, p, n) == Bit(data, p) + 2 * BitsLsb(data, p + 1, n - 1)
    ensures n > 0 ==> BitsMsb(data, p, n) == 2 * BitsMsb(data, p, n - 1) + Bit(data, p + n - 1)
  {}

  /** Reversing the bits of a field exchanges the two readings. */
  lemma {:induction false} RevBits(data: seq<Byte>, p: nat, n: nat)
    ensures Rev(BitsLsb(data, p, n), n) == BitsMsb(data, p, n)
    decreases n
  {
    hide BitsLsb, BitsMsb, Rev, Shl, Pow2, Bit;
    BitsStep(data, p, n);
    RevStep(BitsLsb(data, p, n), n);
    if n > 0 {
      RevBits(data, p + 1, n - 1);
      BitsMsbFront(data, p, n - 1);
      ShlOne(n - 1);
      ShlZero(n - 1);
    }
  }

  lemma {:induction false} BitsLsbSplit(data: seq<Byte>, p: nat, a: nat, b: nat)
    ensures BitsLsb(data, p, a + b) == BitsLsb(data, p, a) + Shl(BitsLsb(data, p + a, b), a)
    decreases a
  {
    hide BitsLsb, Bit, Shl, Pow2;
    BitsStep(data, p, a);
    BitsStep(data, p, a + b);
    ShlStep(BitsLsb(data, p + a, b), a);
    if a > 0 {
      BitsLsbSplit(data, p + 1, a - 1, b);
    }
  }

  lemma {:induction false} BitsMsbPrefix(data: seq<Byte>, p: nat, n: nat, w: nat)
    requires n <= w
    ensures Shr(BitsMsb(data, p, w), w - n) == BitsMsb(data, p, n)
    decreases w
  {
    if n < w {
      BitsMsbPrefix(data, p, n, w - 1);
      ShrFirst(BitsMsb(data, p, w), w - n);
    }
  }

  lemma ShrFirst(x: nat, n: nat)
    requires n > 0
    ensures Shr(x, n) == Shr(x / 2, n - 1)
  {}

  /** The codeword test on the bits is the match test on a window of them. */
  lemma CodewordIsMatch(lens: seq<nat>, i: nat, data: seq<Byte>, p: nat, w: nat)
    requires i < |lens| && lens[i] <= w
    ensures CodewordAt(lens, i, data, p) <==> Matches(lens, i, BitsMsb(data, p, w), w)
  {
    hide BitsMsb, Shr, CodeOf;
    if lens[i] > 0 {
      BitsMsbPrefix(data, p, lens[i], w);
    }
  }

  /** At most one codeword is next, so a decoder has no choice. */
  lemma CodewordUnique(lens: seq<nat>, i: nat, j: nat, data: seq<Byte>, p: nat)
    requires CodewordAt(lens, i, data, p) && CodewordAt(lens, j, data, p)
    ensures i == j
  {
    hide BitsMsb, Shr, CodeOf;
    var w := if lens[i] < lens[j] then lens[j] else lens[i];
    CodewordIsMatch(lens, i, data, p, w);
    CodewordIsMatch(lens, j, data, p, w);
    MatchUnique(lens, i, j, BitsMsb(data, p, w), w);
  }

  /** Eight aligned bits are a byte. */
  lemma ByteBits(data: seq<Byte>, q: nat)
    ensures BitsLsb(data, 8 * q, 8) == if q < |data| then data[q] else 0
  {
    ByteBitsFrom(data, q, 0);
    if q < |data| {
      ShrStep(data[q], 0);
    }
  }

  lemma ByteIndex(q: nat, k: nat)
    requires k < 8
    ensures (8 * q + k) / 8 == q && (8 * q + k) % 8 == k
  {}

  lemma {:induction false} ByteBitsFrom(data: seq<Byte>, q: nat, k: nat)
    requires k <= 8
    ensures BitsLsb(data, 8 * q + k, 8 - k) == if q < |data| then Shr(data[q], k) else 0
    decreases 8 - k
  {
    hide BitsLsb, Shr, Low, Pow2;
    BitsStep(data, 8 * q + k, 8 - k);
    if k < 8 {
      ByteBitsFrom(data, q, k + 1);
      ByteIndex(q, k);
      if q < |data| {
        ShrShr(data[q], k, 1);
        ShrOne(Shr(data[q], k));
      }
    } else if q < |data| {
      ShlByte(0);
      LowSmall(data[q], 8);
    }
  }

  /** Past the end of the data every bit is zero. */
  lemma {:induction false} ZeroBits(data: seq<Byte>, p: nat, n: nat)
    requires p >= 8 * |data|
    ensures BitsLsb(data, p, n) == 0
    decreases n
  {
    if n > 0 {
      ZeroBits(data, p + 1, n - 1);
    }
  }

  lemma Pow2Table()
    ensures Pow2(0) == 1 && Pow2(1) == 2 && Pow2(2) == 4 && Pow2(3) == 8 && Pow2(4) == 16
    ensures Pow2(5) == 32 && Pow2(6) == 64 && Pow2(7) == 128 && Pow2(8) == 256 && Pow2(9) == 512
    ensures Pow2(10) == 1024 && Pow2(11) == 2048 && Pow2(12) == 4096 && Pow2(13) == 8192
  {}

  /** Length codes tile 3..257, and 258 has a code of its own. */
  lemma LengthCodesTile(z: nat)
    requires z < 27
    ensures LengthBase(z + 1) == LengthBase(z) + Pow2(LengthExtra(z))
    ensures LengthBase(0) == 3 && LengthBase(27) + Pow2(LengthExtra(27)) == LengthBase(28) + 1
  {
    hide Pow2;
    Pow2Table();
  }

  /** Distance codes tile 1..32768. */
  lemma DistanceCodesTile(z: nat)
    requires z < 29
    ensures DistBase(z + 1) == DistBase(z) + Pow2(DistExtra(z))
    ensures DistBase(0) == 1 && DistBase(29) + Pow2(DistExtra(29)) == 32769
  {
    hide Pow2;
    Pow2Table();
  }
}
