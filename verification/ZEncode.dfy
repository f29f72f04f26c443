/**
 An encoder of DEFLATE streams, written from RFC 1951 without the decoder's tables, and the
 round trip: every stream that it writes means the bytes that were encoded.

 The encoder is told how: which blocks, which tokens and code lengths, and how the code
 lengths of a dynamic block are run-length coded. Bits are a sequence of zeros and ones in
 the order of the stream.
 */
module ZEncode {
  import opened Bits
  import opened CanonicalCode
  import opened Deflate
  import opened ZFixed

  // --------------------------------------------------------------------------- bits

  /** The input goes on with `bits` at position `p`. */
  ghost predicate Carries(data: seq<Byte>, p: nat, bits: seq<nat>) {
    forall i :: 0 <= i < |bits| ==> Bit(data, p + i) == bits[i]
  }

  lemma CarriesBoth(data: seq<Byte>, p: nat, a: seq<nat>, b: seq<nat>)
    requires Carries(data, p, a + b)
    ensures Carries(data, p, a) && Carries(data, p + |a|, b)
  {
    hide Bit;
    forall i | 0 <= i < |a|
      ensures Bit(data, p + i) == a[i]
    {
      assert (a + b)[i] == a[i];
    }
    forall i | 0 <= i < |b|
      ensures Bit(data, p + |a| + i) == b[i]
    {
      assert (a + b)[|a| + i] == b[i];
    }
  }

  lemma {:induction false} CarriesLsb(data: seq<Byte>, p: nat, v: nat, n: nat)
    requires v < Pow2(n) && Carries(data, p, Lsb(v, n))
    ensures BitsLsb(data, p, n) == v
    decreases n
  {
    hide Bit;
    if n > 0 {
      CarriesBoth(data, p, [v % 2], Lsb(v / 2, n - 1));
      assert Bit(data, p + 0) == [v % 2][0];
      CarriesLsb(data, p + 1, v / 2, n - 1);
    }
  }

  lemma {:induction false} CarriesMsb(data: seq<Byte>, p: nat, v: nat, n: nat)
    requires v < Pow2(n) && Carries(data, p, Msb(v, n))
    ensures BitsMsb(data, p, n) == v
    decreases n
  {
    hide Bit;
    if n > 0 {
      CarriesBoth(data, p, Msb(v / 2, n - 1), [v % 2]);
      assert Bit(data, p + (n - 1) + 0) == [v % 2][0];
      CarriesMsb(data, p, v / 2, n - 1);
    }
  }

  // --------------------------------------------------------- codes, lengths, distances

  ghost predicate HasCode(lens: seq<nat>, sym: nat) {
    sym < |lens| && lens[sym] > 0
  }

  /** A usable code: within the Kraft inequality. */
  ghost predicate Usable(lens: seq<nat>) {
    LengthsAtMost(lens, 15) && KraftHolds(lens, 15)
  }

  function CodeBits(lens: seq<nat>, sym: nat): (s: seq<nat>)
    requires sym < |lens| && lens[sym] > 0
    ensures |s| == lens[sym]
  {
    Msb(CodeOf(lens, sym), lens[sym])
  }

  lemma CodeWritten(lens: seq<nat>, data: seq<Byte>, p: nat, sym: nat)
    requires Usable(lens) && HasCode(lens, sym) && Carries(data, p, CodeBits(lens, sym))
    ensures SymbolAt(lens, data, p) == sym
  {
    hide CodeOf, BitsMsb, KraftHolds, Carries, Msb;
    CodeFits(lens, sym, 15);
    CarriesMsb(data, p, CodeOf(lens, sym), lens[sym]);
    assert CodewordAt(lens, sym, data, p);
    CodewordUnique(lens, sym, SymbolAt(lens, data, p), data, p);
  }

  /** The place of the highest bit. */
  function FloorLog(v: nat): (r: nat)
    requires v > 0
    ensures Pow2(r) <= v < 2 * Pow2(r)
  {
    if v == 1 then 0 else 1 + FloorLog(v / 2)
  }

  /** Code, number of extra bits and extra bits: four codes to each power of two from 4 on. */
  function LengthParts(len: nat): (nat, nat, nat)
    requires 3 <= len <= 258
  {
    var v := len - 3;
    if len == 258 then (285, 0, 0)
    else if v < 4 then (257 + v, 0, 0)
    else
      FloorLogAtLeast(v, 2);
      var n := FloorLog(v) - 2;
      (257 + 4 * n + v / Pow2(n), n, v % Pow2(n))
  }

  /** Two codes to each power of two from 2 on. */
  function DistParts(dist: nat): (nat, nat, nat)
    requires 1 <= dist <= 32768
  {
    var v := dist - 1;
    if v < 2 then (v, 0, 0)
    else
      FloorLogAtLeast(v, 1);
      var n := FloorLog(v) - 1;
      (2 * n + v / Pow2(n), n, v % Pow2(n))
  }

  lemma FloorLogAtLeast(v: nat, k: nat)
    requires v >= Pow2(k)
    ensures FloorLog(v) >= k
  {
    if FloorLog(v) < k {
      Pow2Monotone(FloorLog(v) + 1, k);
    }
  }

  lemma FloorLogBelow(v: nat, k: nat)
    requires 0 < v < Pow2(k)
    ensures FloorLog(v) < k
  {
    if FloorLog(v) >= k {
      Pow2Monotone(k, FloorLog(v));
    }
  }

  /** The source's length tables follow the rule. */
  lemma LengthTable(z: nat)
    requires 4 <= z < 28
    ensures LengthExtra(z) == z / 4 - 1 && LengthBase(z) == (4 + z % 4) * Pow2(z / 4 - 1) + 3
  {
    hide Pow2;
    Pow2Table();
  }

  lemma DistTable(z: nat)
    requires 2 <= z < 30
    ensures DistExtra(z) == z / 2 - 1 && DistBase(z) == (2 + z % 2) * Pow2(z / 2 - 1) + 1
  {
    hide Pow2;
    Pow2Table();
  }

  lemma SmallLength(z: nat)
    requires z < 4 || z == 28
    ensures LengthExtra(z) == 0 && LengthBase(z) == if z < 4 then 3 + z else 258
  {}

  lemma SmallDist(z: nat)
    requires z < 2
    ensures DistExtra(z) == 0 && DistBase(z) == 1 + z
  {}

  lemma QuotientAt(v: nat, w: nat, k: nat)
    requires w > 0 && k * w <= v < 2 * (k * w)
    ensures k <= v / w < 2 * k && v == (v / w) * w + v % w && v % w < w
  {
    var q := v / w;
    assert v == w * q + v % w;
    Scaled(w, k - q);
    assert w * (k - q) == k * w - w * q;
    Scaled(w, q - 2 * k + 1);
    assert w * (q - 2 * k + 1) == w * q - 2 * (k * w) + w;
  }

  lemma LogTwo(v: nat)
    requires 4 <= v < 256
    ensures 2 <= FloorLog(v) <= 7 && 4 * Pow2(FloorLog(v) - 2) <= v < 8 * Pow2(FloorLog(v) - 2)
  {
    hide FloorLog;
    FloorLogAtLeast(v, 2);
    FloorLogBelow(v, 8);
  }

  lemma LogOne(v: nat)
    requires 2 <= v < 32768
    ensures 1 <= FloorLog(v) <= 14 && 2 * Pow2(FloorLog(v) - 1) <= v < 4 * Pow2(FloorLog(v) - 1)
  {
    hide FloorLog;
    Pow2Fifteen();
    FloorLogAtLeast(v, 1);
    FloorLogBelow(v, 15);
  }

  lemma NoExtra()
    ensures Pow2(0) == 1
  {}

  lemma LengthOf(v: nat, n: nat, w: nat)
    requires w == Pow2(n) && 4 * w <= v < 8 * w && n <= 5
    ensures var z := 4 * n + v / w; 4 <= z < 28 && LengthExtra(z) == n && LengthBase(z) + v % w == v + 3
  {
    hide Pow2, LengthBase, LengthExtra;
    var q := v / w;
    QuotientAt(v, w, 4);
    assert (4 * n + q) / 4 == n + 1 && (4 * n + q) % 4 == q - 4;
    LengthTable(4 * n + q);
  }

  lemma DistOf(v: nat, n: nat, w: nat)
    requires w == Pow2(n) && 2 * w <= v < 4 * w && n <= 13
    ensures var z := 2 * n + v / w; 2 <= z < 30 && DistExtra(z) == n && DistBase(z) + v % w == v + 1
  {
    hide Pow2, DistBase, DistExtra;
    var q := v / w;
    QuotientAt(v, w, 2);
    assert (2 * n + q) / 2 == n + 1 && (2 * n + q) % 2 == q - 2;
    DistTable(2 * n + q);
  }

  lemma LengthPartsAre(len: nat)
    requires 3 <= len <= 258
    ensures var (sym, n, e) := LengthParts(len);
      257 <= sym < 286 && e < Pow2(n) && LengthExtra(sym - 257) == n && LengthBase(sym - 257) + e == len
  {
    var v := len - 3;
    hide LengthExtra, LengthBase, FloorLog, Pow2;
    if len == 258 || v < 4 {
      NoExtra();
      SmallLength(if len == 258 then 28 else v);
    } else {
      LogTwo(v);
      LengthOf(v, FloorLog(v) - 2, Pow2(FloorLog(v) - 2));
    }
  }

  lemma DistPartsAre(dist: nat)
    requires 1 <= dist <= 32768
    ensures var (sym, n, e) := DistParts(dist);
      sym < 30 && e < Pow2(n) && DistExtra(sym) == n && DistBase(sym) + e == dist
  {
    var v := dist - 1;
    hide DistExtra, DistBase, FloorLog, Pow2;
    if v < 2 {
      NoExtra();
      SmallDist(v);
    } else {
      LogOne(v);
      DistOf(v, FloorLog(v) - 1, Pow2(FloorLog(v) - 1));
    }
  }

  // ------------------------------------------------------------------------- tokens

  /** A literal byte, or the bytes `dist` back, `len` of them. */
  datatype Tok = Lit(b: Byte) | Match(len: nat, dist: nat) {
    predicate Valid() {
      Match? ==> 3 <= len <= 258 && 1 <= dist <= 32768
    }

    /** It has codes, and reaches back no further than there is output. */
    ghost predicate Fits(lits: seq<nat>, dists: seq<nat>, have: nat) {
      match this
      case Lit(b) => HasCode(lits, b)
      case Match(_, d) => Valid() && d <= have && HasCode(lits, LengthParts(len).0) && HasCode(dists, DistParts(dist).0)
    }
  }

  /** The output with one more token: byte `k` of a match repeats the last `dist` bytes. */
  function Applied(out: seq<Byte>, t: Tok): seq<Byte> {
    match t
    case Lit(b) => out + [b]
    case Match(len, dist) =>
      if 1 <= dist <= |out| then out + seq(len, k requires 0 <= k => Repeated(out, dist, k)) else out
  }

  function Repeated(out: seq<Byte>, dist: nat, k: nat): Byte
    requires 1 <= dist <= |out|
  {
    out[|out| - dist + k % dist]
  }

  ghost function TokBits(lits: seq<nat>, dists: seq<nat>, have: nat, t: Tok): seq<nat>
    requires t.Fits(lits, dists, have)
  {
    match t
    case Lit(b) => CodeBits(lits, b)
    case Match(len, dist) => CodeBits(lits, LengthParts(len).0) + TailBits(dists, len, dist)
  }

  /** A match after its length code. */
  ghost function TailBits(dists: seq<nat>, len: nat, dist: nat): (s: seq<nat>)
    requires 3 <= len <= 258 && 1 <= dist <= 32768 && HasCode(dists, DistParts(dist).0)
    ensures |s| == LengthParts(len).1 + dists[DistParts(dist).0] + DistParts(dist).1
  {
    Lsb(LengthParts(len).2, LengthParts(len).1)
    + (CodeBits(dists, DistParts(dist).0) + Lsb(DistParts(dist).2, DistParts(dist).1))
  }

  lemma LitWritten(lits: seq<nat>, dists: seq<nat>, data: seq<Byte>, st: State, b: Byte)
    requires Usable(lits) && HasCode(lits, b) && Carries(data, st.pos, CodeBits(lits, b))
    ensures Token(lits, dists, data, st) == More(State(st.pos + lits[b], st.out + [b]))
  {
    hide SymbolAt, Carries, CodeBits, KraftHolds;
    CodeWritten(lits, data, st.pos, b);
  }

  lemma EndWritten(lits: seq<nat>, dists: seq<nat>, data: seq<Byte>, st: State)
    requires Usable(lits) && HasCode(lits, 256) && Carries(data, st.pos, CodeBits(lits, 256))
    ensures Token(lits, dists, data, st) == Done(State(st.pos + lits[256], st.out))
  {
    hide SymbolAt, Carries, CodeBits, KraftHolds;
    CodeWritten(lits, data, st.pos, 256);
  }

  lemma CopyIsApplied(out: seq<Byte>, len: nat, dist: nat)
    requires 1 <= dist <= |out|
    ensures Copy(out, dist, len) == Applied(out, Match(len, dist))
  {
    hide Copy, Repeated;
    var c, a := Copy(out, dist, len), Applied(out, Match(len, dist));
    assert c[..|out|] == out && |c| == |a|;
    forall i | 0 <= i < |c|
      ensures c[i] == a[i]
    {
      if i < |out| {
        assert c[..|out|][i] == c[i];
      } else {
        CopyRepeats(out, len, dist, i - |out|);
      }
    }
  }

  lemma CopyRepeats(out: seq<Byte>, len: nat, dist: nat, k: nat)
    requires 1 <= dist <= |out| && k < len
    ensures Copy(out, dist, len)[|out| + k] == Repeated(out, dist, k)
  {
    hide Copy;
    CopyPeriodic(out, dist, len, k);
  }

  lemma MatchTail(dists: seq<nat>, data: seq<Byte>, p: nat, out: seq<Byte>, len: nat, dist: nat)
    requires 3 <= len <= 258 && 1 <= dist <= 32768 && dist <= |out| && Usable(dists) && HasCode(dists, DistParts(dist).0)
    requires Carries(data, p, TailBits(dists, len, dist))
    ensures 257 <= LengthParts(len).0 < 286
    ensures MatchToken(dists, data, p, out, LengthParts(len).0 - 257)
      == More(State(p + LengthParts(len).1 + dists[DistParts(dist).0] + DistParts(dist).1, Applied(out, Match(len, dist))))
  {
    hide SymbolAt, Carries, CodeBits, KraftHolds, LengthParts, DistParts, LengthBase, LengthExtra, DistBase, DistExtra,
      Lsb, BitsLsb, Copy, Applied, Pow2;
    var (sym, n, e) := LengthParts(len);
    var (dsym, dn, de) := DistParts(dist);
    LengthPartsAre(len);
    DistPartsAre(dist);
    CarriesBoth(data, p, Lsb(e, n), CodeBits(dists, dsym) + Lsb(de, dn));
    CarriesBoth(data, p + n, CodeBits(dists, dsym), Lsb(de, dn));
    CarriesLsb(data, p, e, n);
    CodeWritten(dists, data, p + n, dsym);
    CarriesLsb(data, p + n + dists[dsym], de, dn);
    CopyIsApplied(out, len, dist);
  }

  lemma MatchWritten(lits: seq<nat>, dists: seq<nat>, data: seq<Byte>, st: State, t: Tok)
    requires Usable(lits) && Usable(dists) && t.Fits(lits, dists, |st.out|) && t.Match?
    requires Carries(data, st.pos, TokBits(lits, dists, |st.out|, t))
    ensures Token(lits, dists, data, st)
      == More(State(st.pos + |TokBits(lits, dists, |st.out|, t)|, Applied(st.out, t)))
  {
    hide SymbolAt, Carries, CodeBits, TailBits, LengthParts, DistParts, MatchToken, Applied, Usable;
    var sym := LengthParts(t.len).0;
    CarriesBoth(data, st.pos, CodeBits(lits, sym), TailBits(dists, t.len, t.dist));
    CodeWritten(lits, data, st.pos, sym);
    MatchTail(dists, data, st.pos + lits[sym], st.out, t.len, t.dist);
  }

  /** A token that was written is read back. */
  lemma TokWritten(lits: seq<nat>, dists: seq<nat>, data: seq<Byte>, st: State, t: Tok)
    requires Usable(lits) && Usable(dists) && t.Fits(lits, dists, |st.out|)
    requires Carries(data, st.pos, TokBits(lits, dists, |st.out|, t))
    ensures Token(lits, dists, data, st)
      == More(State(st.pos + |TokBits(lits, dists, |st.out|, t)|, Applied(st.out, t)))
  {
    hide Token, Carries, CodeBits, LengthParts, DistParts, Usable;
    match t
    case Lit(b) => LitWritten(lits, dists, data, st, b);
    case Match(_, _) => MatchWritten(lits, dists, data, st, t);
  }

  // ------------------------------------------------------------- sequences of tokens

  /** What tokens append to `out`. */
  function Unpacked(out: seq<Byte>, ts: seq<Tok>): seq<Byte> {
    if |ts| == 0 then out else Applied(Unpacked(out, ts[..|ts| - 1]), ts[|ts| - 1])
  }

  ghost predicate AllFit(lits: seq<nat>, dists: seq<nat>, out: seq<Byte>, ts: seq<Tok>) {
    |ts| > 0 ==>
      var front := ts[..|ts| - 1];
      AllFit(lits, dists, out, front) && ts[|ts| - 1].Fits(lits, dists, |Unpacked(out, front)|)
  }

  ghost function ToksBits(lits: seq<nat>, dists: seq<nat>, out: seq<Byte>, ts: seq<Tok>): seq<nat>
    requires AllFit(lits, dists, out, ts)
  {
    if |ts| == 0 then []
    else
      var front := ts[..|ts| - 1];
      ToksBits(lits, dists, out, front) + TokBits(lits, dists, |Unpacked(out, front)|, ts[|ts| - 1])
  }

  lemma {:induction false} ToksWritten(lits: seq<nat>, dists: seq<nat>, data: seq<Byte>, p: nat, out: seq<Byte>, ts: seq<Tok>)
    requires Usable(lits) && Usable(dists) && AllFit(lits, dists, out, ts)
    requires Carries(data, p, ToksBits(lits, dists, out, ts))
    ensures Tokens(lits, dists, data, State(p, out), |ts|)
      == More(State(p + |ToksBits(lits, dists, out, ts)|, Unpacked(out, ts)))
    decreases |ts|
  {
    hide Token, Carries, TokBits, Applied, KraftHolds, Usable, Tok.Fits;
    if |ts| > 0 {
      var front, t := ts[..|ts| - 1], ts[|ts| - 1];
      var head, tail := ToksBits(lits, dists, out, front), TokBits(lits, dists, |Unpacked(out, front)|, t);
      CarriesBoth(data, p, head, tail);
      ToksWritten(lits, dists, data, p, out, front);
      TokWritten(lits, dists, data, State(p + |head|, Unpacked(out, front)), t);
    }
  }

  /** Tokens and the end of the block. */
  lemma CodedWritten(lits: seq<nat>, dists: seq<nat>, data: seq<Byte>, p: nat, out: seq<Byte>, ts: seq<Tok>)
    requires Usable(lits) && Usable(dists) && AllFit(lits, dists, out, ts) && HasCode(lits, 256)
    requires Carries(data, p, ToksBits(lits, dists, out, ts) + CodeBits(lits, 256))
    ensures Coded(lits, dists, data, p, out, State(p + |ToksBits(lits, dists, out, ts)| + lits[256], Unpacked(out, ts)))
  {
    hide Token, Carries, ToksBits, KraftHolds, Usable, AllFit, CodeBits;
    CarriesBoth(data, p, ToksBits(lits, dists, out, ts), CodeBits(lits, 256));
    ToksWritten(lits, dists, data, p, out, ts);
    EndWritten(lits, dists, data, State(p + |ToksBits(lits, dists, out, ts)|, Unpacked(out, ts)));
    assert Tokens(lits, dists, data, State(p, out), |ts| + 1).Done?;
  }

  // ------------------------------------------------------------------ stored blocks

  /** Zeros up to the next byte. */
  function Padding(p: nat): (s: seq<nat>)
    ensures |s| == (8 - p % 8) % 8 && p + |s| == Aligned(p)
  {
    seq((8 - p % 8) % 8, _ => 0)
  }

  function ByteBitsOf(bytes: seq<Byte>): (s: seq<nat>)
    ensures |s| == 8 * |bytes|
  {
    if |bytes| == 0 then [] else ByteBitsOf(bytes[..|bytes| - 1]) + Lsb(bytes[|bytes| - 1], 8)
  }

  /** A stored block after its three header bits, which end at `p` (section 3.2.4). */
  function StoredBits(p: nat, bytes: seq<Byte>): (s: seq<nat>)
    requires |bytes| <= 0xFFFF
    ensures |s| == |Padding(p)| + 32 + 8 * |bytes|
  {
    Padding(p) + (Lsb(|bytes|, 16) + (Lsb(0xFFFF - |bytes|, 16) + ByteBitsOf(bytes)))
  }

  lemma {:induction false} BytesWritten(data: seq<Byte>, q: nat, bytes: seq<Byte>)
    requires Carries(data, 8 * q, ByteBitsOf(bytes)) && q + |bytes| <= |data|
    ensures data[q..q + |bytes|] == bytes
    decreases |bytes|
  {
    hide Carries, Lsb, BitsLsb, Pow2;
    if |bytes| > 0 {
      var n := |bytes| - 1;
      CarriesBoth(data, 8 * q, ByteBitsOf(bytes[..n]), Lsb(bytes[n], 8));
      BytesWritten(data, q, bytes[..n]);
      ShlByte(0);
      assert 8 * q + 8 * n == 8 * (q + n);
      CarriesLsb(data, 8 * (q + n), bytes[n], 8);
      ByteBits(data, q + n);
      assert data[q..q + n + 1] == data[q..q + n] + [data[q + n]];
    }
  }

  lemma StoredWritten(data: seq<Byte>, p: nat, out: seq<Byte>, bytes: seq<Byte>)
    requires |bytes| <= 0xFFFF && Carries(data, p, StoredBits(p, bytes)) && p + |StoredBits(p, bytes)| <= 8 * |data|
    ensures Stored(data, p, out, State(p + |StoredBits(p, bytes)|, out + bytes))
  {
    hide Carries, Lsb, BitsLsb, Pow2, ByteBitsOf, Aligned;
    var n, q := |bytes|, p + |Padding(p)|;
    Pow2Sixteen();
    CarriesBoth(data, p, Padding(p), Lsb(n, 16) + (Lsb(0xFFFF - n, 16) + ByteBitsOf(bytes)));
    CarriesBoth(data, q, Lsb(n, 16), Lsb(0xFFFF - n, 16) + ByteBitsOf(bytes));
    CarriesBoth(data, q + 16, Lsb(0xFFFF - n, 16), ByteBitsOf(bytes));
    CarriesLsb(data, q, n, 16);
    CarriesLsb(data, q + 16, 0xFFFF - n, 16);
    StoredPlace(p, q);
    BytesWritten(data, q / 8 + 4, bytes);
  }

  lemma StoredPlace(p: nat, q: nat)
    requires q == p + |Padding(p)|
    ensures q == Aligned(p) && q % 8 == 0 && 8 * (q / 8 + 4) == q + 32
  {}

  // ------------------------------------------------------------------ dynamic blocks

  /**
   The order in which the lengths of the code-length code are sent: the three repeat codes,
   zero, and then the lengths from 8 outwards, the greater one first.
   */
  function OrderOf(i: nat): (s: nat)
    requires i < 19
    ensures s < 19
  {
    if i < 3 then 16 + i
    else if i == 3 then 0
    else if i % 2 == 0 then 8 + (i - 4) / 2
    else 7 - (i - 5) / 2
  }

  lemma OrderIs(i: nat)
    requires i < 19
    ensures Dezigzag(i) == OrderOf(i)
  {}

  function OrderBits(cl: seq<nat>, n: nat): (s: seq<nat>)
    requires |cl| == 19 && n <= 19
    ensures |s| == 3 * n
  {
    if n == 0 then [] else OrderBits(cl, n - 1) + Lsb(cl[OrderOf(n - 1)], 3)
  }

  lemma {:induction false} OrderWritten(data: seq<Byte>, p: nat, cl: seq<nat>, n: nat, i: nat)
    requires |cl| == 19 && i < n <= 19 && (forall k :: 0 <= k < 19 ==> cl[k] <= 7)
    requires Carries(data, p, OrderBits(cl, n))
    ensures BitsLsb(data, p + 3 * i, 3) == cl[OrderOf(i)]
  {
    hide Carries, Lsb, BitsLsb, Pow2;
    CarriesBoth(data, p, OrderBits(cl, n - 1), Lsb(cl[OrderOf(n - 1)], 3));
    if i == n - 1 {
      Pow2Table();
      CarriesLsb(data, p + 3 * i, cl[OrderOf(i)], 3);
    } else {
      OrderWritten(data, p, cl, n - 1, i);
    }
  }

  lemma CodeLengthsWritten(data: seq<Byte>, p: nat, cl: seq<nat>, hclen: nat)
    requires |cl| == 19 && hclen <= 19 && (forall k :: 0 <= k < 19 ==> cl[k] <= 7)
    requires forall i :: hclen <= i < 19 ==> cl[OrderOf(i)] == 0
    requires Carries(data, p, OrderBits(cl, hclen))
    ensures CodeLengthCode(data, p, hclen) == cl
  {
    hide Carries, OrderBits, BitsLsb, OrderOf, SentAt, Dezigzag;
    forall k: nat | k < 19
      ensures CodeLengthCode(data, p, hclen)[k] == cl[k]
    {
      OrderIs(SentAt(k));
      if SentAt(k) < hclen {
        OrderWritten(data, p, cl, hclen, SentAt(k));
      }
    }
  }

  /** One length, the last one again, or zeros. */
  datatype Item = One(l: nat) | Again(n: nat) | Zeros(n: nat) {
    predicate Valid(have: nat) {
      match this
      case One(l) => l < 16
      case Again(n) => 3 <= n <= 6 && have > 0
      case Zeros(n) => 3 <= n <= 138
    }

    /** The code-length symbol (section 3.2.7). */
    function Symbol(): nat {
      match this
      case One(l) => l
      case Again(_) => 16
      case Zeros(n) => if n <= 10 then 17 else 18
    }

    function Extra(): seq<nat>
      requires Again? || Zeros? ==> n >= 3
    {
      match this
      case One(_) => []
      case Again(n) => Lsb(n - 3, 2)
      case Zeros(n) => if n <= 10 then Lsb(n - 3, 3) else Lsb(n - 11, 7)
    }
  }

  function Extended(lens: seq<nat>, item: Item): (r: seq<nat>)
    requires item.Valid(|lens|)
    ensures |r| > |lens|
  {
    match item
    case One(l) => lens + [l]
    case Again(n) => lens + seq(n, _ => lens[|lens| - 1])
    case Zeros(n) => lens + seq(n, _ => 0)
  }

  ghost function ItemBits(cl: seq<nat>, have: nat, item: Item): seq<nat>
    requires item.Valid(have) && HasCode(cl, item.Symbol())
  {
    CodeBits(cl, item.Symbol()) + item.Extra()
  }

  lemma ItemWritten(cl: seq<nat>, data: seq<Byte>, ntot: nat, p: nat, lens: seq<nat>, item: Item)
    requires Usable(cl) && |cl| == 19 && item.Valid(|lens|) && HasCode(cl, item.Symbol())
    requires |Extended(lens, item)| <= ntot && Carries(data, p, ItemBits(cl, |lens|, item))
    ensures LengthItem(cl, data, ntot, p, lens) == Lengths(p + |ItemBits(cl, |lens|, item)|, Extended(lens, item))
  {
    hide SymbolAt, Carries, CodeBits, KraftHolds, Lsb, BitsLsb, Pow2;
    CarriesBoth(data, p, CodeBits(cl, item.Symbol()), item.Extra());
    CodeWritten(cl, data, p, item.Symbol());
    var q := p + cl[item.Symbol()];
    Pow2Table();
    match item
    case One(l) =>
    case Again(n) => CarriesLsb(data, q, n - 3, 2);
    case Zeros(n) =>
      if n <= 10 {
        CarriesLsb(data, q, n - 3, 3);
      } else {
        CarriesLsb(data, q, n - 11, 7);
      }
  }

  ghost predicate ItemsFit(cl: seq<nat>, lens: seq<nat>, items: seq<Item>)
    decreases |items|
  {
    |items| > 0 ==>
      && items[0].Valid(|lens|) && HasCode(cl, items[0].Symbol())
      && ItemsFit(cl, Extended(lens, items[0]), items[1..])
  }

  ghost function AllExtended(cl: seq<nat>, lens: seq<nat>, items: seq<Item>): (r: seq<nat>)
    requires ItemsFit(cl, lens, items)
    ensures |r| >= |lens| && (|items| > 0 ==> |r| > |lens|)
    decreases |items|
  {
    if |items| == 0 then lens else AllExtended(cl, Extended(lens, items[0]), items[1..])
  }

  ghost function ItemsBits(cl: seq<nat>, lens: seq<nat>, items: seq<Item>): seq<nat>
    requires ItemsFit(cl, lens, items)
    decreases |items|
  {
    if |items| == 0 then [] else
      ItemBits(cl, |lens|, items[0]) + ItemsBits(cl, Extended(lens, items[0]), items[1..])
  }

  lemma {:induction false} ItemsWritten(cl: seq<nat>, data: seq<Byte>, ntot: nat, p: nat, lens: seq<nat>, items: seq<Item>)
    requires Usable(cl) && |cl| == 19 && ItemsFit(cl, lens, items)
    requires |AllExtended(cl, lens, items)| == ntot && Carries(data, p, ItemsBits(cl, lens, items))
    ensures LengthItems(cl, data, ntot, p, lens)
      == Lengths(p + |ItemsBits(cl, lens, items)|, AllExtended(cl, lens, items))
    decreases |items|
  {
    hide LengthItem, Carries, KraftHolds, Usable, ItemBits, Extended, Item.Symbol, Item.Valid;
    if |items| > 0 {
      var more := Extended(lens, items[0]);
      CarriesBoth(data, p, ItemBits(cl, |lens|, items[0]), ItemsBits(cl, more, items[1..]));
      ItemWritten(cl, data, ntot, p, lens, items[0]);
      ItemsWritten(cl, data, ntot, p + |ItemBits(cl, |lens|, items[0])|, more, items[1..]);
    }
  }

  /** The two codes of a dynamic block and how they are written. */
  datatype Header = Header(lits: seq<nat>, dists: seq<nat>, cl: seq<nat>, hclen: nat, items: seq<Item>) {
    ghost predicate Valid() {
      && 257 <= |lits| <= 288 && 1 <= |dists| <= 32 && Usable(lits) && Usable(dists) && HasCode(lits, 256)
      && |cl| == 19 && 4 <= hclen <= 19 && (forall k :: 0 <= k < 19 ==> cl[k] <= 7) && KraftHolds(cl, 15)
      && (forall i :: hclen <= i < 19 ==> cl[OrderOf(i)] == 0)
      && ItemsFit(cl, [], items) && AllExtended(cl, [], items) == lits + dists
    }
  }

  ghost function HeaderBits(h: Header): seq<nat>
    requires h.Valid()
  {
    Lsb(|h.lits| - 257, 5) + (Lsb(|h.dists| - 1, 5) + (Lsb(h.hclen - 4, 4)
      + (OrderBits(h.cl, h.hclen) + ItemsBits(h.cl, [], h.items))))
  }

  lemma CountsWritten(data: seq<Byte>, p: nat, a: nat, b: nat, c: nat, rest: seq<nat>)
    requires a < 32 && b < 32 && c < 16 && Carries(data, p, Lsb(a, 5) + (Lsb(b, 5) + (Lsb(c, 4) + rest)))
    ensures BitsLsb(data, p, 5) == a && BitsLsb(data, p + 5, 5) == b && BitsLsb(data, p + 10, 4) == c
    ensures Carries(data, p + 14, rest)
  {
    hide Carries, Lsb, BitsLsb, Pow2;
    Pow2Table();
    CarriesBoth(data, p, Lsb(a, 5), Lsb(b, 5) + (Lsb(c, 4) + rest));
    CarriesBoth(data, p + 5, Lsb(b, 5), Lsb(c, 4) + rest);
    CarriesBoth(data, p + 10, Lsb(c, 4), rest);
    CarriesLsb(data, p, a, 5);
    CarriesLsb(data, p + 5, b, 5);
    CarriesLsb(data, p + 10, c, 4);
  }

  /** The header of a dynamic block that was written is read back. */
  lemma HeaderWritten(data: seq<Byte>, p: nat, h: Header)
    requires h.Valid() && Carries(data, p, HeaderBits(h))
    ensures DynamicTables(data, p) == Tables(p + |HeaderBits(h)|, h.lits, h.dists)
  {
    hide Carries, Lsb, BitsLsb, KraftHolds, OrderBits, ItemsBits, AllExtended, ItemsFit, LengthItems, OrderOf,
      CodeLengthCode;
    var order, items := OrderBits(h.cl, h.hclen), ItemsBits(h.cl, [], h.items);
    CountsWritten(data, p, |h.lits| - 257, |h.dists| - 1, h.hclen - 4, order + items);
    CarriesBoth(data, p + 14, order, items);
    CodeLengthsWritten(data, p + 14, h.cl, h.hclen);
    ItemsWritten(h.cl, data, |h.lits| + |h.dists|, p + 14 + |order|, [], h.items);
    assert (h.lits + h.dists)[..|h.lits|] == h.lits && (h.lits + h.dists)[|h.lits|..] == h.dists;
  }

  // ------------------------------------------------------------------------- streams

  /** What one block is to hold. */
  datatype Piece = StoredPiece(bytes: seq<Byte>) | FixedPiece(ts: seq<Tok>) | DynamicPiece(h: Header, ts: seq<Tok>) {
    ghost predicate Fits(out: seq<Byte>) {
      match this
      case StoredPiece(bytes) => |bytes| <= 0xFFFF
      case FixedPiece(ts) => AllFit(FixedLit(), FixedDist(), out, ts)
      case DynamicPiece(h, ts) => h.Valid() && AllFit(h.lits, h.dists, out, ts)
    }

    /** The output after it. */
    function After(out: seq<Byte>): seq<Byte> {
      match this
      case StoredPiece(bytes) => out + bytes
      case FixedPiece(ts) => Unpacked(out, ts)
      case DynamicPiece(_, ts) => Unpacked(out, ts)
    }

    function Kind(): (k: nat)
      ensures k < 3
    {
      match this
      case StoredPiece(_) => 0
      case FixedPiece(_) => 1
      case DynamicPiece(_, _) => 2
    }

    /** Its bits after the three of the block header, which end at `p`. */
    ghost function BodyBits(p: nat, out: seq<Byte>): seq<nat>
      requires Fits(out)
    {
      match this
      case StoredPiece(bytes) => StoredBits(p, bytes)
      case FixedPiece(ts) => ToksBits(FixedLit(), FixedDist(), out, ts) + Msb(0, 7)
      case DynamicPiece(h, ts) => HeaderBits(h) + (ToksBits(h.lits, h.dists, out, ts) + CodeBits(h.lits, 256))
    }

    /** A block at `p`. */
    ghost function Bits(p: nat, out: seq<Byte>, final: bool): seq<nat>
      requires Fits(out)
    {
      [if final then 1 else 0] + (Lsb(Kind(), 2) + BodyBits(p + 3, out))
    }
  }

  lemma FixedUsable()
    ensures Usable(FixedLit()) && Usable(FixedDist()) && HasCode(FixedLit(), 256)
    ensures FixedLit()[256] == 7 && CodeBits(FixedLit(), 256) == Msb(0, 7)
  {
    hide KraftHolds, CodeOf, Msb;
    FixedCodesHold();
    FixedLitCodes(256);
  }

  lemma BodyWritten(data: seq<Byte>, p: nat, out: seq<Byte>, piece: Piece)
    requires piece.Fits(out) && Carries(data, p, piece.BodyBits(p, out))
    requires p + |piece.BodyBits(p, out)| <= 8 * |data|
    ensures Body(piece.Kind(), data, p, out, State(p + |piece.BodyBits(p, out)|, piece.After(out)))
  {
    hide Carries, Stored, StoredBits, Coded, DynamicTables, HeaderBits, Header.Valid, ToksBits, AllFit, CodeBits, Usable,
      FixedLit, FixedDist, Msb, Unpacked;
    match piece
    case StoredPiece(bytes) =>
      StoredWritten(data, p, out, bytes);
    case FixedPiece(ts) =>
      FixedUsable();
      CodedWritten(FixedLit(), FixedDist(), data, p, out, ts);
    case DynamicPiece(h, ts) =>
      HeaderUsable(h);
      CarriesBoth(data, p, HeaderBits(h), ToksBits(h.lits, h.dists, out, ts) + CodeBits(h.lits, 256));
      HeaderWritten(data, p, h);
      CodedWritten(h.lits, h.dists, data, p + |HeaderBits(h)|, out, ts);
  }

  lemma HeaderUsable(h: Header)
    requires h.Valid()
    ensures Usable(h.lits) && Usable(h.dists) && HasCode(h.lits, 256)
  {}

  /** A block that was written is read back. */
  lemma BlockWritten(data: seq<Byte>, a: State, piece: Piece, final: bool)
    requires piece.Fits(a.out) && Carries(data, a.pos, piece.Bits(a.pos, a.out, final))
    requires a.pos + |piece.Bits(a.pos, a.out, final)| <= 8 * |data|
    ensures Block(data, a, State(a.pos + |piece.Bits(a.pos, a.out, final)|, piece.After(a.out)), final)
  {
    hide Carries, BitsLsb, Lsb, Body, Pow2, Piece.BodyBits, Piece.After, Piece.Fits;
    Pow2Table();
    var f, p := if final then 1 else 0, a.pos + 3;
    var body := piece.BodyBits(p, a.out);
    CarriesBoth(data, a.pos, [f], Lsb(piece.Kind(), 2) + body);
    CarriesBoth(data, a.pos + 1, Lsb(piece.Kind(), 2), body);
    OneBit(data, a.pos, f);
    CarriesLsb(data, a.pos + 1, piece.Kind(), 2);
    BodyWritten(data, p, a.out, piece);
  }

  lemma OneBit(data: seq<Byte>, p: nat, b: nat)
    requires b < 2 && Carries(data, p, [b])
    ensures BitsLsb(data, p, 1) == b
  {
    assert Lsb(b, 0) == [] && Lsb(b, 1) == [b];
    CarriesLsb(data, p, b, 1);
  }

  /** The bytes that a sequence of blocks encodes. */
  function Meant(pieces: seq<Piece>): seq<Byte> {
    if |pieces| == 0 then [] else pieces[|pieces| - 1].After(Meant(pieces[..|pieces| - 1]))
  }

  ghost predicate PiecesFit(pieces: seq<Piece>) {
    |pieces| > 0 ==>
      PiecesFit(pieces[..|pieces| - 1]) && pieces[|pieces| - 1].Fits(Meant(pieces[..|pieces| - 1]))
  }

  /** The bits of the blocks, the last one marked as final or not. */
  ghost function Written(pieces: seq<Piece>, final: bool): seq<nat>
    requires PiecesFit(pieces)
  {
    if |pieces| == 0 then []
    else
      var front := pieces[..|pieces| - 1];
      Written(front, false) + pieces[|pieces| - 1].Bits(|Written(front, false)|, Meant(front), final)
  }

  lemma {:induction false} ChainWritten(data: seq<Byte>, pieces: seq<Piece>, final: bool) returns (chain: seq<State>)
    requires PiecesFit(pieces) && Carries(data, 0, Written(pieces, final)) && |Written(pieces, final)| <= 8 * |data|
    ensures |chain| == |pieces| + 1 && chain[0] == State(0, [])
    ensures chain[|pieces|] == State(|Written(pieces, final)|, Meant(pieces))
    ensures forall i :: 0 <= i < |pieces| ==> Block(data, chain[i], chain[i + 1], final && i == |pieces| - 1)
    decreases |pieces|
  {
    hide Carries, Block, Piece.Bits, Piece.Fits, Piece.After;
    if |pieces| == 0 {
      chain := [State(0, [])];
    } else {
      var front, last := pieces[..|pieces| - 1], pieces[|pieces| - 1];
      var head := Written(front, false);
      CarriesBoth(data, 0, head, last.Bits(|head|, Meant(front), final));
      chain := ChainWritten(data, front, false);
      BlockWritten(data, State(|head|, Meant(front)), last, final);
      chain := chain + [State(|Written(pieces, final)|, Meant(pieces))];
    }
  }

  /** The input begins with the stream of `pieces`, all of it. */
  ghost predicate Encodes(data: seq<Byte>, pieces: seq<Piece>) {
    && |pieces| > 0 && PiecesFit(pieces)
    && Carries(data, 0, Written(pieces, true)) && |Written(pieces, true)| <= 8 * |data|
  }

  /**
   The round trip: an input that begins with an encoded stream has a decoding, which ends
   where the stream does and holds the bytes that were encoded.
   */
  lemma EncodedInflates(data: seq<Byte>, pieces: seq<Piece>) returns (chain: seq<State>)
    requires Encodes(data, pieces)
    ensures Inflated(data, chain) && chain[0] == State(0, [])
    ensures chain[|chain| - 1] == State(|Written(pieces, true)|, Meant(pieces))
  {
    hide Carries, Block, Piece.Bits, Piece.Fits, Piece.After, Meant;
    chain := ChainWritten(data, pieces, true);
  }

  /** So whatever decoding there is of such an input holds those bytes. */
  lemma EncodedDecodes(data: seq<Byte>, pieces: seq<Piece>, c: seq<State>)
    requires Encodes(data, pieces) && Inflated(data, c) && c[0] == State(0, [])
    ensures c[|c| - 1] == State(|Written(pieces, true)|, Meant(pieces))
  {
    hide Block, Carries, Written, Meant;
    var chain := EncodedInflates(data, pieces);
    InflatedUnique(data, c, chain);
  }

  // ------------------------------------------------------------------------- to bytes

  ghost predicate Binary(bits: seq<nat>) {
    forall i :: 0 <= i < |bits| ==> bits[i] < 2
  }

  /** The bits of byte `q`, zeros after the last. */
  function Octet(bits: seq<nat>, q: nat): (s: seq<nat>)
    ensures |s| == 8
  {
    seq(8, k requires 0 <= k < 8 => if 8 * q + k < |bits| then bits[8 * q + k] else 0)
  }

  lemma {:induction false} FromBitsBound(s: seq<nat>)
    requires Binary(s)
    ensures FromBits(s) < Pow2(|s|)
  {
    if |s| > 0 {
      FromBitsBound(s[1..]);
    }
  }

  ghost function ByteOf(bits: seq<nat>, q: nat): Byte
    requires Binary(bits)
  {
    FromBitsBound(Octet(bits, q));
    ShlByte(0);
    FromBits(Octet(bits, q))
  }

  /** The bytes of a bit string, first bit lowest (section 3.1.1). */
  ghost function BytesOf(bits: seq<nat>): (data: seq<Byte>)
    requires Binary(bits)
    ensures |data| == (|bits| + 7) / 8
  {
    seq((|bits| + 7) / 8, q requires 0 <= q => ByteOf(bits, q))
  }

  lemma BytesCarry(bits: seq<nat>, more: seq<Byte>)
    requires Binary(bits)
    ensures Carries(BytesOf(bits) + more, 0, bits) && |bits| <= 8 * |BytesOf(bits) + more|
  {
    hide FromBits, Shr;
    var data := BytesOf(bits) + more;
    forall i | 0 <= i < |bits|
      ensures Bit(data, 0 + i) == bits[i]
    {
      var q, k := i / 8, i % 8;
      assert data[q] == FromBits(Octet(bits, q));
      BitOf(Octet(bits, q), k);
    }
  }

  lemma {:induction false} LsbBinary(v: nat, n: nat)
    ensures Binary(Lsb(v, n))
    decreases n
  {
    if n > 0 {
      LsbBinary(v / 2, n - 1);
    }
  }

  lemma {:induction false} MsbBinary(v: nat, n: nat)
    ensures Binary(Msb(v, n))
    decreases n
  {
    if n > 0 {
      MsbBinary(v / 2, n - 1);
    }
  }

  lemma TokBinary(lits: seq<nat>, dists: seq<nat>, have: nat, t: Tok)
    requires t.Fits(lits, dists, have)
    ensures Binary(TokBits(lits, dists, have, t))
  {
    hide LengthParts, DistParts, CodeOf, Lsb, Msb;
    match t
    case Lit(b) => MsbBinary(CodeOf(lits, b), lits[b]);
    case Match(len, dist) =>
      var (sym, n, e) := LengthParts(len);
      var (dsym, dn, de) := DistParts(dist);
      MsbBinary(CodeOf(lits, sym), lits[sym]);
      LsbBinary(e, n);
      MsbBinary(CodeOf(dists, dsym), dists[dsym]);
      LsbBinary(de, dn);
  }

  lemma {:induction false} ToksBinary(lits: seq<nat>, dists: seq<nat>, out: seq<Byte>, ts: seq<Tok>)
    requires AllFit(lits, dists, out, ts)
    ensures Binary(ToksBits(lits, dists, out, ts))
    decreases |ts|
  {
    hide TokBits, Tok.Fits, Unpacked;
    if |ts| > 0 {
      var front := ts[..|ts| - 1];
      ToksBinary(lits, dists, out, front);
      TokBinary(lits, dists, |Unpacked(out, front)|, ts[|ts| - 1]);
    }
  }

  lemma {:induction false} BytesBinary(bytes: seq<Byte>)
    ensures Binary(ByteBitsOf(bytes))
    decreases |bytes|
  {
    hide Lsb;
    if |bytes| > 0 {
      BytesBinary(bytes[..|bytes| - 1]);
      LsbBinary(bytes[|bytes| - 1], 8);
    }
  }

  lemma {:induction false} OrderBinary(cl: seq<nat>, n: nat)
    requires |cl| == 19 && n <= 19
    ensures Binary(OrderBits(cl, n))
    decreases n
  {
    hide Lsb, OrderOf;
    if n > 0 {
      OrderBinary(cl, n - 1);
      LsbBinary(cl[OrderOf(n - 1)], 3);
    }
  }

  lemma {:induction false} ItemsBinary(cl: seq<nat>, lens: seq<nat>, items: seq<Item>)
    requires ItemsFit(cl, lens, items)
    ensures Binary(ItemsBits(cl, lens, items))
    decreases |items|
  {
    hide Lsb, Msb, CodeOf, Extended;
    if |items| > 0 {
      ItemsBinary(cl, Extended(lens, items[0]), items[1..]);
      var sym := items[0].Symbol();
      MsbBinary(CodeOf(cl, sym), cl[sym]);
      match items[0]
      case One(_) =>
      case Again(n) => LsbBinary(n - 3, 2);
      case Zeros(n) =>
        LsbBinary(n - 3, 3);
        if n > 10 {
          LsbBinary(n - 11, 7);
        }
    }
  }

  lemma HeaderBinary(h: Header)
    requires h.Valid()
    ensures Binary(HeaderBits(h))
  {
    hide Lsb, OrderBits, ItemsBits, KraftHolds, ItemsFit, AllExtended, OrderOf;
    LsbBinary(|h.lits| - 257, 5);
    LsbBinary(|h.dists| - 1, 5);
    LsbBinary(h.hclen - 4, 4);
    OrderBinary(h.cl, h.hclen);
    ItemsBinary(h.cl, [], h.items);
  }

  lemma StoredBinary(p: nat, bytes: seq<Byte>)
    requires |bytes| <= 0xFFFF
    ensures Binary(StoredBits(p, bytes))
  {
    hide Lsb, ByteBitsOf;
    LsbBinary(|bytes|, 16);
    LsbBinary(0xFFFF - |bytes|, 16);
    BytesBinary(bytes);
  }

  lemma PieceBinary(p: nat, out: seq<Byte>, final: bool, piece: Piece)
    requires piece.Fits(out)
    ensures Binary(piece.Bits(p, out, final))
  {
    hide Lsb, Msb, CodeOf, StoredBits, ToksBits, HeaderBits, AllFit, Header.Valid, FixedLit, FixedDist;
    LsbBinary(piece.Kind(), 2);
    match piece
    case StoredPiece(bytes) => StoredBinary(p + 3, bytes);
    case FixedPiece(ts) =>
      ToksBinary(FixedLit(), FixedDist(), out, ts);
      MsbBinary(0, 7);
    case DynamicPiece(h, ts) =>
      HeaderUsable(h);
      HeaderBinary(h);
      ToksBinary(h.lits, h.dists, out, ts);
      MsbBinary(CodeOf(h.lits, 256), h.lits[256]);
  }

  lemma {:induction false} WrittenBinary(pieces: seq<Piece>, final: bool)
    requires PiecesFit(pieces)
    ensures Binary(Written(pieces, final))
    decreases |pieces|
  {
    hide Piece.Bits, Piece.Fits, Meant;
    if |pieces| > 0 {
      var front := pieces[..|pieces| - 1];
      WrittenBinary(front, false);
      PieceBinary(|Written(front, false)|, Meant(front), final, pieces[|pieces| - 1]);
    }
  }

  /** The compressed bytes of a sequence of blocks. */
  ghost function Encode(pieces: seq<Piece>): seq<Byte>
    requires PiecesFit(pieces)
  {
    WrittenBinary(pieces, true);
    BytesOf(Written(pieces, true))
  }

  /** Encoded bytes, whatever follows them, are a stream of those blocks. */
  lemma EncodeEncodes(pieces: seq<Piece>, more: seq<Byte>)
    requires |pieces| > 0 && PiecesFit(pieces)
    ensures Encodes(Encode(pieces) + more, pieces)
  {
    hide Written, Carries, BytesOf, PiecesFit;
    WrittenBinary(pieces, true);
    BytesCarry(Written(pieces, true), more);
  }
}
