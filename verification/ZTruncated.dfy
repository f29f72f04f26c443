/**
 Two inputs that end before their stream does and are accepted all the same. In the first
 the refill of a plain field makes up the missing bits, in the second the refill of a code.
 */
module ZTruncated {
  import opened Bits
  import opened CanonicalCode
  import opened Deflate
  import opened ZFixed
  import opened Options
  import opened ZReader

  /** A final block with fixed codes, and five of the seven bits of its end. */
  const ONE: seq<Byte> := [0x03]

  /** A final block with fixed codes, five literals of nine bits, one of eight, and no end. */
  const SEVEN: seq<Byte> := [0x3B, 0x71, 0xE2, 0xC4, 0x89, 0x13, 0x8E]

  /** The codewords of the literals 200 and 65 and of the end of a block. */
  lemma FixedCodes(lens: seq<nat>)
    requires lens == FixedLit()
    ensures CodeOf(lens, 200) == 456 && CodeOf(lens, 65) == 113 && CodeOf(lens, 256) == 0
  {
    FixedLitCodes(200);
    FixedLitCodes(65);
    FixedLitCodes(256);
  }

  lemma FixedSymbol(lens: seq<nat>, data: seq<Byte>, p: nat, sym: nat)
    requires lens == FixedLit() && sym < |lens| && BitsMsb(data, p, lens[sym]) == CodeOf(lens, sym)
    ensures SymbolAt(lens, data, p) == sym
  {
    hide BitsMsb, CodeOf;
    assert CodewordAt(lens, sym, data, p);
    CodewordUnique(lens, sym, SymbolAt(lens, data, p), data, p);
  }

  /** The bits of the seven bytes, each byte from its lowest bit on. */
  const BITS: seq<seq<nat>> := [
    [1, 1, 0, 1, 1, 1, 0, 0],
    [1, 0, 0, 0, 1, 1, 1, 0],
    [0, 1, 0, 0, 0, 1, 1, 1],
    [0, 0, 1, 0, 0, 0, 1, 1],
    [1, 0, 0, 1, 0, 0, 0, 1],
    [1, 1, 0, 0, 1, 0, 0, 0],
    [0, 1, 1, 1, 0, 0, 0, 1]]

  lemma FromBitsAt(s: seq<nat>, i: nat)
    requires i < |s|
    ensures FromBits(s[i..]) == s[i] + 2 * FromBits(s[i + 1..])
  {
    assert s[i..][1..] == s[i + 1..];
  }

  lemma EightBits(s: seq<nat>)
    requires |s| == 8
    ensures FromBits(s) == s[0] + 2 * s[1] + 4 * s[2] + 8 * s[3] + 16 * s[4] + 32 * s[5] + 64 * s[6] + 128 * s[7]
  {
    assert s[8..] == [] && s[0..] == s && FromBits([]) == 0;
    hide FromBits;
    FromBitsAt(s, 7);
    FromBitsAt(s, 6);
    FromBitsAt(s, 5);
    FromBitsAt(s, 4);
    FromBitsAt(s, 3);
    FromBitsAt(s, 2);
    FromBitsAt(s, 1);
    FromBitsAt(s, 0);
  }

  lemma SevenBytes(q: nat)
    requires q < 7
    ensures FromBits(BITS[q]) == SEVEN[q] && |BITS[q]| == 8 && forall i :: 0 <= i < 8 ==> BITS[q][i] < 2
  {
    hide FromBits;
    EightBits(BITS[q]);
  }

  lemma SevenBit(q: nat, k: nat)
    requires q < 7 && k < 8
    ensures Bit(SEVEN, 8 * q + k) == BITS[q][k]
  {
    hide Shr, FromBits;
    ByteIndex(q, k);
    SevenBytes(q);
    BitOf(BITS[q], k);
  }

  /** Bits in the order of a Huffman code. */
  function CodeBits(b: seq<nat>): nat {
    if |b| == 0 then 0 else 2 * CodeBits(b[..|b| - 1]) + b[|b| - 1]
  }

  lemma {:induction false} WindowOf(data: seq<Byte>, p: nat, b: seq<nat>)
    requires forall i: nat :: i < |b| ==> Bit(data, p + i) == b[i]
    ensures BitsMsb(data, p, |b|) == CodeBits(b)
  {
    hide Bit;
    if |b| > 0 {
      WindowOf(data, p, b[..|b| - 1]);
    }
  }

  lemma WindowAt(p: nat, b: seq<nat>)
    requires p + |b| <= 56
    requires forall i: nat :: i < |b| ==> b[i] == BITS[(p + i) / 8][(p + i) % 8]
    ensures BitsMsb(SEVEN, p, |b|) == CodeBits(b)
  {
    hide Bit, BitsMsb, CodeBits;
    forall i: nat | i < |b|
      ensures Bit(SEVEN, p + i) == b[i]
    {
      SevenBit((p + i) / 8, (p + i) % 8);
    }
    WindowOf(SEVEN, p, b);
  }

  const LITERAL: seq<nat> := [1, 1, 1, 0, 0, 1, 0, 0, 0]
  const SHORTER: seq<nat> := [0, 1, 1, 1, 0, 0, 0, 1]

  lemma CodeBitsAt(b: seq<nat>, n: nat)
    requires n < |b|
    ensures CodeBits(b[..n + 1]) == 2 * CodeBits(b[..n]) + b[n]
  {
    assert b[..n + 1][..n] == b[..n];
  }

  lemma NineBits(b: seq<nat>)
    requires b == LITERAL
    ensures CodeBits(b) == 456
  {
    assert b[..0] == [] && b[..9] == b && CodeBits([]) == 0;
    hide CodeBits;
    CodeBitsAt(b, 0);
    CodeBitsAt(b, 1);
    CodeBitsAt(b, 2);
    CodeBitsAt(b, 3);
    CodeBitsAt(b, 4);
    CodeBitsAt(b, 5);
    CodeBitsAt(b, 6);
    CodeBitsAt(b, 7);
    CodeBitsAt(b, 8);
  }

  lemma EightCode(b: seq<nat>)
    requires b == SHORTER
    ensures CodeBits(b) == 113
  {
    assert b[..0] == [] && b[..8] == b && CodeBits([]) == 0;
    hide CodeBits;
    CodeBitsAt(b, 0);
    CodeBitsAt(b, 1);
    CodeBitsAt(b, 2);
    CodeBitsAt(b, 3);
    CodeBitsAt(b, 4);
    CodeBitsAt(b, 5);
    CodeBitsAt(b, 6);
    CodeBitsAt(b, 7);
  }

  lemma LiteralBits(k: nat)
    requires k < 5
    ensures BitsMsb(SEVEN, 3 + 9 * k, 9) == 456
  {
    hide BitsMsb;
    var p := 3 + 9 * k;
    forall i: nat | i < 9
      ensures LITERAL[i] == BITS[(p + i) / 8][(p + i) % 8]
    {
      assert k == 0 || k == 1 || k == 2 || k == 3 || k == 4;
    }
    WindowAt(p, LITERAL);
    NineBits(LITERAL);
  }

  lemma EndBits()
    ensures BitsMsb(SEVEN, 56, 7) == 0
  {}

  lemma OneEndBits()
    ensures BitsMsb(ONE, 3, 7) == 0
  {}

  lemma ShorterBits()
    ensures BitsMsb(SEVEN, 48, 8) == 113
  {
    hide BitsMsb;
    WindowAt(48, SHORTER);
    EightCode(SHORTER);
  }

  lemma Headers()
    ensures BitsLsb(SEVEN, 0, 1) == 1 && BitsLsb(SEVEN, 1, 2) == 1
    ensures BitsLsb(ONE, 0, 1) == 1 && BitsLsb(ONE, 1, 2) == 1
  {}

  lemma Symbols()
    ensures forall k: nat :: k < 5 ==> SymbolAt(FixedLit(), SEVEN, LiteralAt(k)) == 200
    ensures SymbolAt(FixedLit(), SEVEN, 48) == 65 && SymbolAt(FixedLit(), SEVEN, 56) == 256
    ensures SymbolAt(FixedLit(), ONE, 3) == 256
  {
    hide BitsMsb, CodeOf, SymbolAt;
    FixedCodes(FixedLit());
    EndBits();
    OneEndBits();
    ShorterBits();
    forall k: nat | k < 5
      ensures SymbolAt(FixedLit(), SEVEN, LiteralAt(k)) == 200
    {
      LiteralBits(k);
      FixedSymbol(FixedLit(), SEVEN, 3 + 9 * k, 200);
    }
    FixedSymbol(FixedLit(), SEVEN, 48, 65);
    FixedSymbol(FixedLit(), SEVEN, 56, 256);
    FixedSymbol(FixedLit(), ONE, 3, 256);
  }

  // -------------------------------------------------------------------------- acceptance

  function Literals(k: nat): seq<Byte> {
    seq(k, _ => 200)
  }

  lemma TokenStep(lit: seq<nat>, dist: seq<nat>, data: seq<Byte>, st: State, sym: nat)
    requires SymbolAt(lit, data, st.pos) == sym <= 256
    ensures sym < |lit|
    ensures Token(lit, dist, data, st)
      == if sym < 256 then More(State(st.pos + lit[sym], st.out + [sym])) else Done(State(st.pos + lit[sym], st.out))
  {
    hide SymbolAt;
  }

  lemma ReadStep(lit: seq<nat>, dist: seq<nat>, data: seq<Byte>, r: Reader, sym: nat)
    requires SymbolAt(lit, data, r.pos) == sym <= 256
    ensures sym < |lit| && TokenRead(lit, dist, data, r) == Code(|data|, r, lit[sym])
  {
    hide SymbolAt, Code;
  }

  lemma FixedLengths(lit: seq<nat>)
    requires lit == FixedLit()
    ensures |lit| == 288 && lit[200] == 9 && lit[65] == 8 && lit[256] == 7
  {}

  /** What matters of the seven bytes: the symbols at their positions. */
  ghost predicate SevenTokens(lit: seq<nat>, data: seq<Byte>) {
    && |data| == 7 && |lit| == 288 && lit[200] == 9 && lit[65] == 8 && lit[256] == 7
    && (forall k: nat :: k < 5 ==> SymbolAt(lit, data, LiteralAt(k)) == 200)
    && SymbolAt(lit, data, 48) == 65 && SymbolAt(lit, data, 56) == 256
  }

  function LiteralAt(k: nat): nat {
    3 + 9 * k
  }

  lemma {:induction false} LiteralTokens(lit: seq<nat>, dist: seq<nat>, data: seq<Byte>, k: nat)
    requires SevenTokens(lit, data) && k <= 5
    ensures Tokens(lit, dist, data, State(3, []), k) == More(State(LiteralAt(k), Literals(k)))
  {
    hide SymbolAt, Token;
    if k > 0 {
      LiteralTokens(lit, dist, data, k - 1);
      TokenStep(lit, dist, data, State(LiteralAt(k - 1), Literals(k - 1)), 200);
      assert Literals(k) == Literals(k - 1) + [200];
    }
  }

  lemma AllTokens(lit: seq<nat>, dist: seq<nat>, data: seq<Byte>)
    requires SevenTokens(lit, data)
    ensures Tokens(lit, dist, data, State(3, []), 6) == More(State(56, Literals(5) + [65]))
    ensures Tokens(lit, dist, data, State(3, []), 7) == Done(State(63, Literals(5) + [65]))
  {
    hide SymbolAt, Token;
    LiteralTokens(lit, dist, data, 5);
    TokenStep(lit, dist, data, State(48, Literals(5)), 65);
    TokenStep(lit, dist, data, State(56, Literals(5) + [65]), 256);
  }

  /** The reader before token `k`. */
  function ReaderAt(k: nat): Reader {
    if k == 0 then Reader(3, 4, 29, false)
    else if k == 1 then Reader(12, 4, 20, false)
    else if k == 2 then Reader(21, 4, 11, false)
    else if k == 3 then Reader(30, 6, 18, false)
    else if k == 4 then Reader(39, 6, 9, false)
    else if k == 5 then Reader(48, 7, 16, false)
    else if k == 6 then Reader(56, 7, 8, false)
    else Reader(63, 7, 17, true)
  }

  lemma {:induction false} TokensAreRead(lit: seq<nat>, dist: seq<nat>, data: seq<Byte>, k: nat)
    requires SevenTokens(lit, data) && k <= 7
    ensures TokensRead(lit, dist, data, ReaderAt(0), k) == Some(ReaderAt(k))
  {
    hide SymbolAt, TokenRead;
    if k > 0 {
      TokensAreRead(lit, dist, data, k - 1);
      var sym := if k <= 5 then 200 else if k == 6 then 65 else 256;
      assert k <= 5 ==> ReaderAt(k - 1).pos == LiteralAt(k - 1);
      ReadStep(lit, dist, data, ReaderAt(k - 1), sym);
      assert Code(7, ReaderAt(k - 1), lit[sym]) == Some(ReaderAt(k));
    }
  }

  /** A stream of one block with fixed codes. */
  lemma SingleBlock(data: seq<Byte>, r: Reader, n: nat, b: State, q: Reader)
    requires BitsLsb(data, 0, 1) == 1 && BitsLsb(data, 1, 2) == 1
    requires Field(|data|, Field(|data|, START, 1), 2) == r
    requires EndsAt(FixedLit(), FixedDist(), data, r, [], n, b, q)
    ensures BlockRead(data, State(0, []), START, b, q, true)
  {
    hide EndsAt, BitsLsb, Field, FixedLit, FixedDist, Stored, DynamicTables, TablesRead;
    assert CodedRead(FixedLit(), FixedDist(), data, r, [], b, q);
  }

  lemma SingleAccepted(data: seq<Byte>, b: State, q: Reader)
    requires BlockRead(data, State(0, []), START, b, q, true)
    requires START.Valid(|data|) && q.Valid(|data|) && q.pos == b.pos
    ensures Accepted(data, [State(0, []), b], [START, q])
  {
    hide BlockRead;
  }

  lemma SevenAre(lit: seq<nat>)
    requires lit == FixedLit()
    ensures SevenTokens(lit, SEVEN)
  {
    hide SymbolAt;
    FixedLengths(lit);
    Symbols();
  }

  /** A block of the seven bytes' symbols ends with the padding untouched. */
  lemma SevenEnd(lit: seq<nat>, dist: seq<nat>, data: seq<Byte>)
    requires SevenTokens(lit, data)
    ensures EndsAt(lit, dist, data, ReaderAt(0), [], 6, State(63, Literals(5) + [65]), ReaderAt(7))
    ensures Field(|data|, Field(|data|, START, 1), 2) == ReaderAt(0)
  {
    hide SymbolAt, Tokens, TokensRead;
    AllTokens(lit, dist, data);
    TokensAreRead(lit, dist, data, 7);
  }

  lemma OneEnd(lit: seq<nat>, dist: seq<nat>, data: seq<Byte>)
    requires |data| == 1 && |lit| == 288 && lit[256] == 7 && SymbolAt(lit, data, 3) == 256
    ensures EndsAt(lit, dist, data, Reader(3, 1, 29, false), [], 0, State(10, []), Reader(10, 1, 22, false))
    ensures Field(|data|, Field(|data|, START, 1), 2) == Reader(3, 1, 29, false)
  {
    hide SymbolAt, Token, TokenRead;
    var r := Reader(3, 1, 29, false);
    TokenStep(lit, dist, data, State(3, []), 256);
    ReadStep(lit, dist, data, r, 256);
    assert Tokens(lit, dist, data, State(3, []), 0) == More(State(3, []));
    assert TokensRead(lit, dist, data, r, 0) == Some(r);
  }

  lemma StartValid(len: nat)
    ensures START.Valid(len)
  {}

  lemma SevenValid()
    ensures ReaderAt(7).Valid(7) && ReaderAt(7).pos == 63
  {}

  lemma OneValid()
    ensures Reader(10, 1, 22, false).Valid(1)
  {}

  lemma SevenLength(lit: seq<nat>, data: seq<Byte>)
    requires SevenTokens(lit, data)
    ensures |data| == 7
  {
    hide SymbolAt;
  }

  lemma InputSizes()
    ensures |SEVEN| == 7 && |ONE| == 1
  {}

  lemma SevenChain(data: seq<Byte>)
    requires SevenTokens(FixedLit(), data) && BitsLsb(data, 0, 1) == 1 && BitsLsb(data, 1, 2) == 1
    ensures Accepted(data, [State(0, []), State(63, Literals(5) + [65])], [START, ReaderAt(7)])
  {
    hide *;
    var b := State(63, Literals(5) + [65]);
    StartValid(|data|);
    SevenValid();
    SevenLength(FixedLit(), data);
    SevenEnd(FixedLit(), FixedDist(), data);
    SingleBlock(data, ReaderAt(0), 6, b, ReaderAt(7));
    SingleAccepted(data, b, ReaderAt(7));
  }

  lemma OneChain(data: seq<Byte>)
    requires |data| == 1 && SymbolAt(FixedLit(), data, 3) == 256
    requires BitsLsb(data, 0, 1) == 1 && BitsLsb(data, 1, 2) == 1
    ensures Accepted(data, [State(0, []), State(10, [])], [START, Reader(10, 1, 22, false)])
  {
    hide *;
    var b, q := State(10, []), Reader(10, 1, 22, false);
    StartValid(|data|);
    OneValid();
    FixedLengths(FixedLit());
    OneEnd(FixedLit(), FixedDist(), data);
    SingleBlock(data, Reader(3, 1, 29, false), 0, b, q);
    SingleAccepted(data, b, q);
  }

  /**
   The seven bytes are accepted at bit 63 of 56: the refill of the fifth code made up eight
   zeros, and the sixteen that are noticed were not touched.
   */
  lemma SevenAccepted() returns (chain: seq<State>, rs: seq<Reader>)
    ensures Accepted(SEVEN, chain, rs) && chain[|chain| - 1] == State(63, Literals(5) + [65])
    ensures 63 > 8 * |SEVEN|
  {
    hide *;
    InputSizes();
    Headers();
    SevenAre(FixedLit());
    SevenChain(SEVEN);
    chain, rs := [State(0, []), State(63, Literals(5) + [65])], [START, ReaderAt(7)];
  }

  /** The single byte is accepted at bit 10 of 8. */
  lemma OneAccepted() returns (chain: seq<State>, rs: seq<Reader>)
    ensures Accepted(ONE, chain, rs) && chain[|chain| - 1] == State(10, [])
    ensures 10 > 8 * |ONE|
  {
    hide *;
    InputSizes();
    Headers();
    Symbols();
    OneChain(ONE);
    chain, rs := [State(0, []), State(10, [])], [START, Reader(10, 1, 22, false)];
  }
}
