/**
 The fixed codes of DEFLATE as section 3.2.6 of RFC 1951 prints them: what the two lists of
 code lengths in the source amount to.
 */
module ZFixed {
  import opened Bits
  import opened CanonicalCode
  import opened Deflate

  /** The table of section 3.2.6: length and codeword of a literal, the end of a block, or a length code. */
  function PrintedLit(sym: nat): (nat, nat)
    requires sym < 288
  {
    if sym < 144 then (8, 0x30 + sym)
    else if sym < 256 then (9, 0x190 + (sym - 144))
    else if sym < 280 then (7, sym - 256)
    else (8, 0xC0 + (sym - 280))
  }

  /** Both codes fill the code space exactly. */
  lemma FixedCodesFill()
    ensures Kraft(FixedLit(), 288, 15) == Pow2(15) && Kraft(FixedDist(), 32, 15) == Pow2(15)
  {
    assert Kraft(FixedDist(), 0, 15) == 0;
    hide Pow2, Kraft;
    Pow2Table();
    Pow2Fifteen();
    FixedRuns(FixedLit());
    KraftRun(FixedDist(), 0, 32, 5, 15);
  }

  lemma FixedStarts(lens: seq<nat>, m: nat)
    requires lens == FixedLit() && 1 <= m <= 8
    ensures EndCode(lens, m) == if m < 7 then 0 else if m == 7 then 24 else 200
  {
    EndCodeIsKraft(lens, m);
    assert Kraft(lens, 0, m) == 0;
    hide Kraft, EndCode;
    Pow2Table();
    KraftRun(lens, 0, 144, 8, m);
    KraftRun(lens, 144, 256, 9, m);
    KraftRun(lens, 256, 280, 7, m);
    KraftRun(lens, 280, 288, 8, m);
  }

  lemma FixedCounts(lens: seq<nat>, sym: nat)
    requires lens == FixedLit() && sym < 288
    ensures Count(lens, sym, lens[sym])
      == if sym < 144 then sym else if sym < 256 then sym - 144 else if sym < 280 then sym - 256 else sym - 136
  {
    var l := lens[sym];
    assert Count(lens, 0, l) == 0;
    hide Count;
    CountRun(lens, 0, if sym < 144 then sym else 144, 8, l);
    if sym >= 144 {
      CountRun(lens, 144, if sym < 256 then sym else 256, 9, l);
    }
    if sym >= 256 {
      CountRun(lens, 256, if sym < 280 then sym else 280, 7, l);
    }
    if sym >= 280 {
      CountRun(lens, 280, sym, 8, l);
    }
  }

  /** The literal code is the printed one. */
  lemma FixedLitCodes(sym: nat)
    requires sym < 288
    ensures (FixedLit()[sym], CodeOf(FixedLit(), sym)) == PrintedLit(sym)
  {
    var lens := FixedLit();
    FixedCounts(lens, sym);
    hide Count, EndCode;
    FixedStarts(lens, 6);
    FixedStarts(lens, 7);
    FixedStarts(lens, 8);
  }

  /** The distance code is the number of the symbol in five bits. */
  lemma FixedDistCodes(sym: nat)
    requires sym < 32
    ensures FixedDist()[sym] == 5 && CodeOf(FixedDist(), sym) == sym
  {
    var lens := FixedDist();
    EndCodeIsKraft(lens, 4);
    assert Kraft(lens, 0, 4) == 0 && Count(lens, 0, 5) == 0;
    hide Count, Kraft, EndCode;
    KraftRun(lens, 0, 32, 5, 4);
    CountRun(lens, 0, sym, 5, 5);
  }

  lemma FiveBits(data: seq<Byte>, p: nat)
    ensures BitsMsb(data, p, 5) < 32
  {
    Pow2Table();
  }

  /** In a block with fixed codes the next distance symbol is the next five bits, at every position of every input. */
  lemma FixedDistSymbol(data: seq<Byte>, p: nat)
    ensures var sym := BitsMsb(data, p, 5);
      SymbolAt(FixedDist(), data, p) == sym < 32 && FixedDist()[sym] == 5
  {
    hide BitsMsb, CodeOf, SymbolAt;
    var sym := BitsMsb(data, p, 5);
    FiveBits(data, p);
    FixedDistCodes(sym);
    assert CodewordAt(FixedDist(), sym, data, p);
    CodewordUnique(FixedDist(), sym, SymbolAt(FixedDist(), data, p), data, p);
  }

  /** The symbol of seven, eight or nine bits that begin with the numbers `a`, `b` and `c`. */
  function PrintedSymbol(a: nat, b: nat, c: nat): int {
    if a < 0x18 then 256 + a
    else if b < 0xC0 then b - 0x30
    else if b < 0xC8 then 280 + (b - 0xC0)
    else 144 + (c - 0x190)
  }

  lemma NextBits(data: seq<Byte>, p: nat)
    ensures BitsMsb(data, p, 7) < 128
    ensures BitsMsb(data, p, 8) / 2 == BitsMsb(data, p, 7) && BitsMsb(data, p, 9) / 2 == BitsMsb(data, p, 8)
  {
    Pow2Table();
  }

  /** And the next literal symbol is what the printed ranges say of the next nine bits. */
  lemma FixedLitSymbol(data: seq<Byte>, p: nat)
    ensures SymbolAt(FixedLit(), data, p)
      == PrintedSymbol(BitsMsb(data, p, 7), BitsMsb(data, p, 8), BitsMsb(data, p, 9))
  {
    hide BitsMsb, CodeOf, SymbolAt;
    var sym := PrintedSymbol(BitsMsb(data, p, 7), BitsMsb(data, p, 8), BitsMsb(data, p, 9));
    NextBits(data, p);
    FixedLitCodes(sym);
    assert CodewordAt(FixedLit(), sym, data, p);
    CodewordUnique(FixedLit(), sym, SymbolAt(FixedLit(), data, p), data, p);
  }
}
