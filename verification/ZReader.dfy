/**
 How the zlib bit reader of stb_image gets at its bits: when it takes bytes, when it makes
 up zeros past the end of the input, and when it gives up. It is a function of positions
 and counts, apart from what the bits say.

 A field that finds too few bits refills with zeros past the end, unnoticed. So does a
 code as long as bytes are left; without any left it gets sixteen zeros once, and then
 fails. A block that ends with some of those sixteen bits used is refused.
 */
module ZReader {
  import opened Bits
  import opened CanonicalCode
  import opened Deflate
  import opened Options

  /** Bits handed out, bytes taken, bits in the buffer, and `hit_zeof_once`. */
  datatype Reader = Reader(pos: nat, next: nat, bits: int, hit: bool) {
    ghost predicate Valid(len: nat) {
      && 0 <= bits <= 32 && next <= len
      && (pos + bits) % 8 == 0
      && (next < len ==> pos + bits == 8 * next)
      && (hit ==> next == len)
      && Invented() >= 0
    }

    /** Zero bits that refills made up, apart from the sixteen. */
    function Invented(): int {
      pos + bits - 8 * next - if hit then 16 else 0
    }

    /** Some made up zeros have been used: fewer bits are left in the buffer than were made up. */
    predicate Overran() {
      bits - (if hit then 16 else 0) < Invented()
    }

    /** Some of the sixteen zeros have been used. */
    predicate Spent() {
      hit && bits < 16
    }
  }

  const START: Reader := Reader(0, 0, 0, false)

  function Min(a: int, b: int): int {
    if a < b then a else b
  }

  /** `k` rounds of `stbi__fill_bits`. */
  function Rounds(len: nat, r: Reader, k: nat): Reader
  {
    r.(next := Min(len, r.next + k), bits := r.bits + 8 * k)
  }

  /** `stbi__fill_bits`: bytes until there are more than 24 bits. */
  function Filled(len: nat, r: Reader): Reader
    requires r.bits <= 24
  {
    Rounds(len, r, (32 - r.bits) / 8)
  }

  /** `stbi__zreceive`. */
  function Field(len: nat, r: Reader, n: nat): (q: Reader)
    requires n <= 16
    ensures q.pos == r.pos + n && q.hit == r.hit
  {
    var f := if r.bits < n then Filled(len, r) else r;
    f.(pos := f.pos + n, bits := f.bits - n)
  }

  /** Extra bits, for which nothing is called when there are none. */
  function Extra(len: nat, r: Reader, n: nat): (q: Reader)
    requires n <= 16
    ensures q.pos == r.pos + n
  {
    if n == 0 then r else Field(len, r, n)
  }

  /** The start of `stbi__zhuffman_decode`; None where it gives up. */
  function Refilled(len: nat, r: Reader): (q: Option<Reader>)
    ensures q.Some? ==> q.value.pos == r.pos
  {
    if r.bits >= 16 then Some(r)
    else if r.next < len then Some(Filled(len, r))
    else if r.hit then None
    else Some(r.(bits := r.bits + 16, hit := true))
  }

  /** A codeword of `l` bits. */
  function Code(len: nat, r: Reader, l: nat): (q: Option<Reader>)
    ensures q.Some? ==> q.value.pos == r.pos + l
  {
    match Refilled(len, r)
    case None => None
    case Some(f) => Some(f.(pos := f.pos + l, bits := f.bits - l))
  }

  lemma FieldValid(len: nat, r: Reader, n: nat)
    requires r.Valid(len) && n <= 16
    ensures Field(len, r, n).Valid(len)
  {}

  lemma CodeValid(len: nat, r: Reader, l: nat)
    requires r.Valid(len) && l <= 16
    ensures Code(len, r, l).Some? ==> Code(len, r, l).value.Valid(len)
  {}

  /** The reader gives up exactly where more bits have been used than the input and the made up ones. */
  lemma GivesUp(len: nat, r: Reader, l: nat)
    requires r.Valid(len)
    ensures Code(len, r, l).None? <==> r.Spent()
    ensures r.hit ==> (r.Spent() <==> r.pos > 8 * len + r.Invented())
    ensures r.Spent() ==> r.pos > 8 * len
  {}

  // ---------------------------------------------------------------------------- tokens

  /** Reading one token of a block; None where a code cannot be read or the token is malformed. */
  ghost function TokenRead(lit: seq<nat>, dist: seq<nat>, data: seq<Byte>, r: Reader): (q: Option<Reader>)
  {
    var sym := SymbolAt(lit, data, r.pos);
    if sym < 0 || sym >= 286 then None
    else
      match Code(|data|, r, lit[sym])
      case None => None
      case Some(q) => if sym <= 256 then Some(q) else MatchRead(dist, data, q, sym - 257)
  }

  /** Reading the rest of a token whose length code is `z`. */
  ghost function MatchRead(dist: seq<nat>, data: seq<Byte>, r: Reader, z: nat): (q: Option<Reader>)
    requires z < 29
  {
    var f := Extra(|data|, r, LengthExtra(z));
    var sym := SymbolAt(dist, data, f.pos);
    if sym < 0 || sym >= 30 then None
    else
      match Code(|data|, f, dist[sym])
      case None => None
      case Some(q) => Some(Extra(|data|, q, DistExtra(sym)))
  }

  /** Reading `n` tokens. */
  ghost function TokensRead(lit: seq<nat>, dist: seq<nat>, data: seq<Byte>, r: Reader, n: nat): (q: Option<Reader>)
  {
    if n == 0 then Some(r)
    else
      match TokensRead(lit, dist, data, r, n - 1)
      case None => None
      case Some(q) => TokenRead(lit, dist, data, q)
  }

  /** Token `n` ends the block in `b` with the reader in `q`, the sixteen zeros unused. */
  ghost predicate EndsAt(
      lit: seq<nat>, dist: seq<nat>, data: seq<Byte>, r: Reader, out: seq<Byte>, n: nat, b: State, q: Reader)
  {
    && Tokens(lit, dist, data, State(r.pos, out), n).More?
    && Tokens(lit, dist, data, State(r.pos, out), n + 1) == Done(b)
    && TokensRead(lit, dist, data, r, n + 1) == Some(q)
    && !q.Spent()
  }

  /** A Huffman-coded block that can be read. */
  ghost predicate CodedRead(
      lit: seq<nat>, dist: seq<nat>, data: seq<Byte>, r: Reader, out: seq<Byte>, b: State, q: Reader)
  {
    exists n: nat :: EndsAt(lit, dist, data, r, out, n, b, q)
  }

  // --------------------------------------------------------------------- code lengths

  /** Reading one item of the run-length coded lengths. */
  ghost function ItemRead(cl: seq<nat>, data: seq<Byte>, r: Reader): (q: Option<Reader>)
  {
    var c := SymbolAt(cl, data, r.pos);
    if c < 0 || c >= 19 then None
    else
      match Code(|data|, r, cl[c])
      case None => None
      case Some(q) => if c < 16 then Some(q) else Some(Field(|data|, q, RepeatExtra(c)))
  }

  /** Reading items until there are `ntot` lengths. */
  ghost function ItemsRead(cl: seq<nat>, data: seq<Byte>, ntot: nat, r: Reader, lens: seq<nat>): (q: Option<Reader>)
    requires |lens| <= ntot
    decreases ntot - |lens|
  {
    if |lens| == ntot then Some(r)
    else
      match LengthItem(cl, data, ntot, r.pos, lens)
      case BadLengths => None
      case Lengths(_, more) =>
        match ItemRead(cl, data, r)
        case None => None
        case Some(q) => ItemsRead(cl, data, ntot, q, more)
  }

  /** Reading `n` fields of three bits. */
  function Sizes(len: nat, r: Reader, n: nat): (q: Reader)
    ensures q.pos == r.pos + 3 * n
  {
    if n == 0 then r else Field(len, Sizes(len, r, n - 1), 3)
  }

  /** The three counts of a dynamic block. */
  function Counts(len: nat, r: Reader): (q: Reader)
    ensures q.pos == r.pos + 14
  {
    Field(len, Field(len, Field(len, r, 5), 5), 4)
  }

  /** Reading the tables of a dynamic block. */
  ghost function TablesRead(data: seq<Byte>, r: Reader): (q: Option<Reader>)
  {
    var hclen := BitsLsb(data, r.pos + 10, 4) + 4;
    ItemsRead(CodeLengthCode(data, r.pos + 14, hclen), data, HeaderLit(data, r.pos) + HeaderDist(data, r.pos),
              Sizes(|data|, Counts(|data|, r), hclen), [])
  }

  // ---------------------------------------------------------------------------- blocks

  /** A body of type `kind` that can be read. After a stored one the buffer is empty. */
  ghost predicate BodyRead(kind: nat, data: seq<Byte>, r: Reader, out: seq<Byte>, b: State, q: Reader)
  {
    match kind
    case 0 => Stored(data, r.pos, out, b) && q == Reader(b.pos, b.pos / 8, 0, r.hit)
    case 1 => CodedRead(FixedLit(), FixedDist(), data, r, out, b, q)
    case 2 =>
      var t, f := DynamicTables(data, r.pos), TablesRead(data, r);
      t.Tables? && f.Some? && CodedRead(t.lit, t.dist, data, f.value, out, b, q)
    case _ => false
  }

  /** A block that can be read takes state and reader from `a` and `r` to `b` and `q`. */
  ghost predicate BlockRead(data: seq<Byte>, a: State, r: Reader, b: State, q: Reader, last: bool)
  {
    && r.pos == a.pos
    && (last <==> BitsLsb(data, a.pos, 1) == 1)
    && BodyRead(BitsLsb(data, a.pos + 1, 2), data, Field(|data|, Field(|data|, r, 1), 2), a.out, b, q)
  }

  /** Blocks that can be read, none of them the last: states and readers between them. */
  ghost predicate Chained(data: seq<Byte>, chain: seq<State>, rs: seq<Reader>) {
    && |chain| == |rs| >= 1 && chain[0] == State(0, []) && rs[0] == START
    && (forall i :: 0 <= i < |rs| ==> rs[i].Valid(|data|) && rs[i].pos == chain[i].pos)
    && forall i :: 0 <= i < |chain| - 1 ==> BlockRead(data, chain[i], rs[i], chain[i + 1], rs[i + 1], false)
  }

  /** A whole stream that can be read: states and readers between its blocks. */
  ghost predicate Accepted(data: seq<Byte>, chain: seq<State>, rs: seq<Reader>) {
    && |chain| == |rs| >= 2 && chain[0] == State(0, []) && rs[0] == START
    && (forall i :: 0 <= i < |rs| ==> rs[i].Valid(|data|) && rs[i].pos == chain[i].pos)
    && forall i :: 0 <= i < |chain| - 1 ==>
      BlockRead(data, chain[i], rs[i], chain[i + 1], rs[i + 1], i == |chain| - 2)
  }

  // --------------------------------------- what is read inside the input is always read

  lemma CodeWithin(len: nat, r: Reader, l: nat)
    requires r.Valid(len) && l <= 16 && r.pos <= 8 * len
    ensures Code(len, r, l).Some? && Code(len, r, l).value.Valid(len)
  {
    GivesUp(len, r, l);
    CodeValid(len, r, l);
  }

  lemma ExtraValid(len: nat, r: Reader, n: nat)
    requires r.Valid(len) && n <= 16
    ensures Extra(len, r, n).Valid(len)
  {
    FieldValid(len, r, n);
  }

  lemma MatchReadWithin(dist: seq<nat>, data: seq<Byte>, r: Reader, out: seq<Byte>, z: nat)
    requires r.Valid(|data|) && z < 29 && LengthsAtMost(dist, 15)
    requires var t := MatchToken(dist, data, r.pos, out, z); (t.More? || t.Done?) && t.st.pos <= 8 * |data|
    ensures var q := MatchRead(dist, data, r, z);
      q.Some? && q.value.Valid(|data|) && q.value.pos == MatchToken(dist, data, r.pos, out, z).st.pos
  {
    hide SymbolAt, LengthExtra, LengthBase, DistExtra, DistBase, Copy, BitsLsb, Reader.Valid, Code, Extra;
    ExtraValid(|data|, r, LengthExtra(z));
    var f := Extra(|data|, r, LengthExtra(z));
    var sym := SymbolAt(dist, data, f.pos);
    CodeWithin(|data|, f, dist[sym]);
    ExtraValid(|data|, Code(|data|, f, dist[sym]).value, DistExtra(sym));
  }

  lemma TokenReadWithin(lit: seq<nat>, dist: seq<nat>, data: seq<Byte>, r: Reader, out: seq<Byte>)
    requires r.Valid(|data|) && LengthsAtMost(lit, 15) && LengthsAtMost(dist, 15)
    requires var t := Token(lit, dist, data, State(r.pos, out)); (t.More? || t.Done?) && t.st.pos <= 8 * |data|
    ensures var q := TokenRead(lit, dist, data, r);
      q.Some? && q.value.Valid(|data|) && q.value.pos == Token(lit, dist, data, State(r.pos, out)).st.pos
  {
    hide SymbolAt, MatchToken, MatchRead, Reader.Valid, Code;
    var sym := SymbolAt(lit, data, r.pos);
    TokenForward(lit, dist, data, State(r.pos, out));
    CodeWithin(|data|, r, lit[sym]);
    if sym > 256 {
      MatchReadWithin(dist, data, Code(|data|, r, lit[sym]).value, out, sym - 257);
    }
  }

  lemma {:induction false} TokensReadWithin(
      lit: seq<nat>, dist: seq<nat>, data: seq<Byte>, r: Reader, out: seq<Byte>, n: nat)
    requires r.Valid(|data|) && LengthsAtMost(lit, 15) && LengthsAtMost(dist, 15)
    requires var t := Tokens(lit, dist, data, State(r.pos, out), n); (t.More? || t.Done?) && t.st.pos <= 8 * |data|
    requires n > 0 ==> Tokens(lit, dist, data, State(r.pos, out), n - 1).More?
    ensures var q := TokensRead(lit, dist, data, r, n);
      q.Some? && q.value.Valid(|data|) && q.value.pos == Tokens(lit, dist, data, State(r.pos, out), n).st.pos
  {
    hide Token, TokenRead, Reader.Valid, LengthsAtMost;
    if n > 0 {
      var st := State(r.pos, out);
      TokensForward(lit, dist, data, st, n - 1, n);
      TokensReadWithin(lit, dist, data, r, out, n - 1);
      var q := TokensRead(lit, dist, data, r, n - 1).value;
      TokenReadWithin(lit, dist, data, q, Tokens(lit, dist, data, st, n - 1).st.out);
    }
  }

  /** The first token that ends a block. */
  lemma {:induction false} FirstEnd(lit: seq<nat>, dist: seq<nat>, data: seq<Byte>, st: State, n: nat, b: State)
    returns (m: nat)
    requires Tokens(lit, dist, data, st, n) == Done(b)
    ensures Tokens(lit, dist, data, st, m).More? && Tokens(lit, dist, data, st, m + 1) == Done(b)
  {
    hide Token;
    if Tokens(lit, dist, data, st, n - 1).More? {
      m := n - 1;
    } else {
      m := FirstEnd(lit, dist, data, st, n - 1, b);
    }
  }

  lemma CodedReadWithin(lit: seq<nat>, dist: seq<nat>, data: seq<Byte>, r: Reader, out: seq<Byte>, b: State)
      returns (q: Reader)
    requires r.Valid(|data|) && LengthsAtMost(lit, 15) && LengthsAtMost(dist, 15)
    requires Coded(lit, dist, data, r.pos, out, b) && b.pos <= 8 * |data|
    ensures CodedRead(lit, dist, data, r, out, b, q) && q.Valid(|data|) && q.pos == b.pos
  {
    hide Tokens, TokensRead, LengthsAtMost;
    var n: nat :| Tokens(lit, dist, data, State(r.pos, out), n) == Done(b);
    var m := FirstEnd(lit, dist, data, State(r.pos, out), n, b);
    TokensReadWithin(lit, dist, data, r, out, m + 1);
    q := TokensRead(lit, dist, data, r, m + 1).value;
    GivesUp(|data|, q, 0);
    assert EndsAt(lit, dist, data, r, out, m, b, q);
  }

  lemma ItemReadWithin(cl: seq<nat>, data: seq<Byte>, ntot: nat, r: Reader, lens: seq<nat>)
    requires r.Valid(|data|) && LengthsAtMost(cl, 15)
    requires var l := LengthItem(cl, data, ntot, r.pos, lens); l.Lengths? && l.pos <= 8 * |data|
    ensures var q := ItemRead(cl, data, r);
      q.Some? && q.value.Valid(|data|) && q.value.pos == LengthItem(cl, data, ntot, r.pos, lens).pos
  {
    hide SymbolAt, BitsLsb, RepeatBase, RepeatExtra, Repeat, Reader.Valid, Code, Field;
    var c := SymbolAt(cl, data, r.pos);
    CodeWithin(|data|, r, cl[c]);
    if c >= 16 {
      FieldValid(|data|, Code(|data|, r, cl[c]).value, RepeatExtra(c));
    }
  }

  lemma {:induction false} ItemsReadWithin(cl: seq<nat>, data: seq<Byte>, ntot: nat, r: Reader, lens: seq<nat>)
    requires r.Valid(|data|) && LengthsAtMost(cl, 15) && |lens| <= ntot
    requires var l := LengthItems(cl, data, ntot, r.pos, lens); l.Lengths? && l.pos <= 8 * |data|
    ensures var q := ItemsRead(cl, data, ntot, r, lens);
      q.Some? && q.value.Valid(|data|) && q.value.pos == LengthItems(cl, data, ntot, r.pos, lens).pos
    decreases ntot - |lens|
  {
    hide LengthItem, ItemRead, Reader.Valid, LengthsAtMost;
    if |lens| < ntot {
      var item := LengthItem(cl, data, ntot, r.pos, lens);
      ItemGrows(cl, data, ntot, r.pos, lens);
      LengthItemsForward(cl, data, ntot, item.pos, item.lens);
      ItemReadWithin(cl, data, ntot, r, lens);
      ItemsReadWithin(cl, data, ntot, ItemRead(cl, data, r).value, item.lens);
    }
  }

  lemma ItemGrows(cl: seq<nat>, data: seq<Byte>, ntot: nat, p: nat, lens: seq<nat>)
    requires |lens| < ntot
    ensures var l := LengthItem(cl, data, ntot, p, lens); l.Lengths? ==> |lens| < |l.lens| <= ntot
  {
    hide SymbolAt, BitsLsb;
  }

  lemma {:induction false} SizesValid(len: nat, r: Reader, n: nat)
    requires r.Valid(len)
    ensures Sizes(len, r, n).Valid(len)
  {
    hide Field, Reader.Valid;
    if n > 0 {
      SizesValid(len, r, n - 1);
      FieldValid(len, Sizes(len, r, n - 1), 3);
    }
  }

  lemma CountsValid(len: nat, r: Reader)
    requires r.Valid(len)
    ensures Counts(len, r).Valid(len)
  {
    hide Field, Reader.Valid;
    FieldValid(len, r, 5);
    FieldValid(len, Field(len, r, 5), 5);
    FieldValid(len, Field(len, Field(len, r, 5), 5), 4);
  }

  lemma CodeLengthsShort(data: seq<Byte>, p: nat, hclen: nat)
    ensures LengthsAtMost(CodeLengthCode(data, p, hclen), 15)
  {
    hide BitsLsb, SentAt;
    Pow2Table();
  }

  lemma TablesReadWithin(data: seq<Byte>, r: Reader)
    requires r.Valid(|data|)
    requires var t := DynamicTables(data, r.pos); t.Tables? && t.pos <= 8 * |data|
    ensures var q := TablesRead(data, r);
      q.Some? && q.value.Valid(|data|) && q.value.pos == DynamicTables(data, r.pos).pos
  {
    hide BitsLsb, KraftHolds, CodeLengthCode, LengthItems, ItemsRead, Reader.Valid, LengthsAtMost, HeaderLit,
      HeaderDist, Counts, Sizes;
    var hclen := BitsLsb(data, r.pos + 10, 4) + 4;
    CountsValid(|data|, r);
    SizesValid(|data|, Counts(|data|, r), hclen);
    CodeLengthsShort(data, r.pos + 14, hclen);
    ItemsReadWithin(CodeLengthCode(data, r.pos + 14, hclen), data, HeaderLit(data, r.pos) + HeaderDist(data, r.pos),
                    Sizes(|data|, Counts(|data|, r), hclen), []);
  }

  lemma {:induction false} LengthItemsShort(cl: seq<nat>, data: seq<Byte>, ntot: nat, p: nat, lens: seq<nat>)
    requires |lens| <= ntot && LengthsAtMost(lens, 15)
    ensures var l := LengthItems(cl, data, ntot, p, lens); l.Lengths? ==> LengthsAtMost(l.lens, 15)
    decreases ntot - |lens|
  {
    hide SymbolAt, BitsLsb;
    if |lens| < ntot {
      var item := LengthItem(cl, data, ntot, p, lens);
      if item.Lengths? {
        LengthItemsShort(cl, data, ntot, item.pos, item.lens);
      }
    }
  }

  lemma TablesShort(data: seq<Byte>, p: nat)
    ensures var t := DynamicTables(data, p); t.Tables? ==> LengthsAtMost(t.lit, 15) && LengthsAtMost(t.dist, 15)
  {
    hide BitsLsb, KraftHolds, CodeLengthCode, LengthItems;
    var hclen := BitsLsb(data, p + 10, 4) + 4;
    LengthItemsShort(CodeLengthCode(data, p + 14, hclen), data, HeaderLit(data, p) + HeaderDist(data, p),
                     p + 14 + 3 * hclen, []);
  }

  lemma AlignedWithin(p: nat)
    ensures p <= Aligned(p) < p + 8 && Aligned(p) % 8 == 0
  {}

  /** A stored block never follows the sixteen zeros. */
  lemma StoredReader(data: seq<Byte>, r: Reader, out: seq<Byte>, b: State)
    requires r.Valid(|data|) && Stored(data, r.pos, out, b)
    ensures !r.hit && b.pos % 8 == 0 && b.pos <= 8 * |data|
    ensures Reader(b.pos, b.pos / 8, 0, r.hit).Valid(|data|)
  {
    hide BitsLsb, Aligned;
    AlignedWithin(r.pos);
  }

  lemma BodyReadWithin(kind: nat, data: seq<Byte>, r: Reader, out: seq<Byte>, b: State) returns (q: Reader)
    requires r.Valid(|data|) && Body(kind, data, r.pos, out, b) && b.pos <= 8 * |data|
    ensures BodyRead(kind, data, r, out, b, q) && q.Valid(|data|) && q.pos == b.pos
  {
    hide Coded, CodedRead, Stored, DynamicTables, TablesRead, FixedLit, FixedDist, Reader.Valid, LengthsAtMost;
    match kind {
      case 0 =>
        StoredReader(data, r, out, b);
        q := Reader(b.pos, b.pos / 8, 0, r.hit);
      case 1 =>
        FixedShort();
        q := CodedReadWithin(FixedLit(), FixedDist(), data, r, out, b);
      case 2 =>
        var t := DynamicTables(data, r.pos);
        TablesShort(data, r.pos);
        CodedForward(t.lit, t.dist, data, t.pos, out, b);
        TablesReadWithin(data, r);
        q := CodedReadWithin(t.lit, t.dist, data, TablesRead(data, r).value, out, b);
      case _ =>
    }
  }

  lemma FixedShort()
    ensures LengthsAtMost(FixedLit(), 15) && LengthsAtMost(FixedDist(), 15)
  {}

  lemma BlockReadWithin(data: seq<Byte>, a: State, r: Reader, b: State, last: bool) returns (q: Reader)
    requires r.Valid(|data|) && r.pos == a.pos && Block(data, a, b, last) && b.pos <= 8 * |data|
    ensures BlockRead(data, a, r, b, q, last) && q.Valid(|data|) && q.pos == b.pos
  {
    hide Body, BodyRead, BitsLsb, Field, Reader.Valid;
    FieldValid(|data|, r, 1);
    FieldValid(|data|, Field(|data|, r, 1), 2);
    q := BodyReadWithin(BitsLsb(data, a.pos + 1, 2), data, Field(|data|, Field(|data|, r, 1), 2), a.out, b);
  }

  /** The readers along the first `n` blocks of a stream that ends inside the input. */
  lemma {:induction false} ReadersWithin(data: seq<Byte>, c: seq<State>, n: nat) returns (rs: seq<Reader>)
    requires Inflated(data, c) && c[0] == State(0, []) && c[|c| - 1].pos <= 8 * |data| && 1 <= n <= |c|
    ensures |rs| == n && rs[0] == START
    ensures forall i :: 0 <= i < n ==> rs[i].Valid(|data|) && rs[i].pos == c[i].pos
    ensures forall i :: 0 <= i < n - 1 ==> BlockRead(data, c[i], rs[i], c[i + 1], rs[i + 1], i == |c| - 2)
  {
    hide Block, BlockRead;
    if n == 1 {
      rs := [START];
    } else {
      rs := ReadersWithin(data, c, n - 1);
      ChainForward(data, c, n - 1);
      assert Block(data, c[n - 2], c[n - 1], n - 2 == |c| - 2);
      var q := BlockReadWithin(data, c[n - 2], rs[n - 2], c[n - 1], n - 2 == |c| - 2);
      rs := rs + [q];
    }
  }

  /** Every stream that means something and ends inside the input can be read. */
  lemma ReadInsideInput(data: seq<Byte>, c: seq<State>) returns (rs: seq<Reader>)
    requires Inflated(data, c) && c[0] == State(0, []) && c[|c| - 1].pos <= 8 * |data|
    ensures Accepted(data, c, rs)
  {
    hide Block, BlockRead;
    rs := ReadersWithin(data, c, |c|);
  }

  // ---------------------------------------------------------- what is accepted otherwise

  lemma CodedReadIsCoded(lit: seq<nat>, dist: seq<nat>, data: seq<Byte>, r: Reader, out: seq<Byte>, b: State, q: Reader)
    requires CodedRead(lit, dist, data, r, out, b, q)
    ensures Coded(lit, dist, data, r.pos, out, b) && !q.Spent()
  {
    hide Tokens, TokensRead;
    var n: nat :| EndsAt(lit, dist, data, r, out, n, b, q);
  }

  lemma {:induction false} ItemsReadAt(cl: seq<nat>, data: seq<Byte>, ntot: nat, r: Reader, lens: seq<nat>)
    requires |lens| <= ntot
    ensures var q, l := ItemsRead(cl, data, ntot, r, lens), LengthItems(cl, data, ntot, r.pos, lens);
      q.Some? ==> l.Lengths? && q.value.pos == l.pos
    decreases ntot - |lens|
  {
    hide SymbolAt, BitsLsb, Code, Field;
    if |lens| < ntot {
      var item, q := LengthItem(cl, data, ntot, r.pos, lens), ItemRead(cl, data, r);
      if item.Lengths? && q.Some? {
        ItemGrows(cl, data, ntot, r.pos, lens);
        ItemsReadAt(cl, data, ntot, q.value, item.lens);
      }
    }
  }

  lemma TablesReadAt(data: seq<Byte>, r: Reader)
    ensures var q, t := TablesRead(data, r), DynamicTables(data, r.pos);
      q.Some? && t.Tables? ==> q.value.pos == t.pos
  {
    hide BitsLsb, KraftHolds, CodeLengthCode, LengthItems, ItemsRead, HeaderLit, HeaderDist, Counts, Sizes;
    var hclen := BitsLsb(data, r.pos + 10, 4) + 4;
    ItemsReadAt(CodeLengthCode(data, r.pos + 14, hclen), data, HeaderLit(data, r.pos) + HeaderDist(data, r.pos),
                Sizes(|data|, Counts(|data|, r), hclen), []);
  }

  lemma BodyReadIsBody(kind: nat, data: seq<Byte>, r: Reader, out: seq<Byte>, b: State, q: Reader)
    requires BodyRead(kind, data, r, out, b, q)
    ensures Body(kind, data, r.pos, out, b)
    ensures r.Valid(|data|) ==> !q.Spent()
  {
    hide Coded, CodedRead, DynamicTables, TablesRead, FixedLit, FixedDist, Reader.Valid, Stored;
    match kind {
      case 0 =>
        if r.Valid(|data|) {
          StoredReader(data, r, out, b);
        }
      case 1 => CodedReadIsCoded(FixedLit(), FixedDist(), data, r, out, b, q);
      case 2 =>
        var t, f := DynamicTables(data, r.pos), TablesRead(data, r);
        TablesReadAt(data, r);
        CodedReadIsCoded(t.lit, t.dist, data, f.value, out, b, q);
      case _ =>
    }
  }

  lemma BlockReadIsBlock(data: seq<Byte>, a: State, r: Reader, b: State, q: Reader, last: bool)
    requires r.Valid(|data|) && BlockRead(data, a, r, b, q, last)
    ensures Block(data, a, b, last) && !q.Spent()
  {
    hide Body, BodyRead, BitsLsb, Field, Reader.Valid;
    FieldValid(|data|, r, 1);
    FieldValid(|data|, Field(|data|, r, 1), 2);
    BodyReadIsBody(BitsLsb(data, a.pos + 1, 2), data, Field(|data|, Field(|data|, r, 1), 2), a.out, b, q);
  }

  /**
   A stream that is accepted means what its chain says, and uses no more bits than the
   input has and refills made up; so it ends inside the input when none were made up, and
   exactly when the buffer still holds as many bits as were.
   */
  lemma AcceptedMeans(data: seq<Byte>, c: seq<State>, rs: seq<Reader>)
    requires Accepted(data, c, rs)
    ensures Inflated(data, c)
    ensures c[|c| - 1].pos <= 8 * |data| + rs[|rs| - 1].Invented()
    ensures c[|c| - 1].pos > 8 * |data| <==> rs[|rs| - 1].Overran()
  {
    hide Block, BlockRead;
    forall i | 0 <= i < |c| - 1
      ensures Block(data, c[i], c[i + 1], i == |c| - 2)
    {
      BlockReadIsBlock(data, c[i], rs[i], c[i + 1], rs[i + 1], i == |c| - 2);
    }
    var k := |c| - 2;
    assert BlockRead(data, c[k], rs[k], c[k + 1], rs[k + 1], k == |c| - 2);
    BlockReadIsBlock(data, c[k], rs[k], c[k + 1], rs[k + 1], true);
    assert rs[k + 1].Valid(|data|);
  }

  lemma Extend(data: seq<Byte>, chain: seq<State>, rs: seq<Reader>, b: State, q: Reader, last: bool)
    requires Chained(data, chain, rs) && q.Valid(|data|) && q.pos == b.pos
    requires BlockRead(data, chain[|chain| - 1], rs[|rs| - 1], b, q, last)
    ensures if last then Accepted(data, chain + [b], rs + [q]) else Chained(data, chain + [b], rs + [q])
  {
    hide BlockRead, Reader.Valid;
  }

  // ----------------------------------------------------------- a stream is read in one way

  /** A block that can be read has a token after each one that does not end it, and reads it. */
  lemma CodedReadReaches(
      lit: seq<nat>, dist: seq<nat>, data: seq<Byte>, r: Reader, out: seq<Byte>, b: State, q: Reader, n: nat)
    requires CodedRead(lit, dist, data, r, out, b, q) && Tokens(lit, dist, data, State(r.pos, out), n).More?
    ensures var t, f := Tokens(lit, dist, data, State(r.pos, out), n + 1), TokensRead(lit, dist, data, r, n + 1);
      && f.Some?
      && (t.More? || (t == Done(b) && f.value == q && !q.Spent()))
      && |t.st.out| <= |b.out|
  {
    hide Tokens, TokensRead, Reader.Spent;
    var m: nat :| EndsAt(lit, dist, data, r, out, m, b, q);
    var st := State(r.pos, out);
    if m < n {
      TokensStable(lit, dist, data, st, m + 1, n);
    }
    TokensForward(lit, dist, data, st, n + 1, m + 1);
    TokensReadBefore(lit, dist, data, r, n + 1, m + 1);
    if n < m {
      TokensForward(lit, dist, data, st, n + 1, m);
      if !Tokens(lit, dist, data, st, n + 1).More? {
        TokensStable(lit, dist, data, st, n + 1, m);
      }
    }
  }

  lemma {:induction false} TokensReadBefore(
      lit: seq<nat>, dist: seq<nat>, data: seq<Byte>, r: Reader, n: nat, m: nat)
    requires n <= m && TokensRead(lit, dist, data, r, m).Some?
    ensures TokensRead(lit, dist, data, r, n).Some?
    decreases m
  {
    hide TokenRead;
    if n < m {
      TokensReadBefore(lit, dist, data, r, n, m - 1);
    }
  }

  lemma CodedReadUnique(
      lit: seq<nat>, dist: seq<nat>, data: seq<Byte>, r: Reader, out: seq<Byte>,
      b: State, q: Reader, b': State, q': Reader)
    requires CodedRead(lit, dist, data, r, out, b, q) && CodedRead(lit, dist, data, r, out, b', q')
    ensures b == b' && q == q'
  {
    hide Tokens, TokensRead, Reader.Spent;
    var m: nat :| EndsAt(lit, dist, data, r, out, m, b, q);
    CodedReadReaches(lit, dist, data, r, out, b', q', m);
  }

  lemma BlockReadUnique(
      data: seq<Byte>, a: State, r: Reader, b: State, q: Reader, last: bool, b': State, q': Reader, last': bool)
    requires BlockRead(data, a, r, b, q, last) && BlockRead(data, a, r, b', q', last')
    ensures b == b' && q == q' && last == last'
  {
    hide BitsLsb, Field, CodedRead, FixedLit, FixedDist, DynamicTables, TablesRead;
    var f := Field(|data|, Field(|data|, r, 1), 2);
    match BitsLsb(data, a.pos + 1, 2) {
      case 0 =>
      case 1 => CodedReadUnique(FixedLit(), FixedDist(), data, f, a.out, b, q, b', q');
      case 2 =>
        var t, g := DynamicTables(data, f.pos), TablesRead(data, f);
        CodedReadUnique(t.lit, t.dist, data, g.value, a.out, b, q, b', q');
      case _ =>
    }
  }

  /** The blocks before the last of any reading of the stream are those of every other. */
  lemma {:induction false} AcceptedPrefix(
      data: seq<Byte>, c: seq<State>, qs: seq<Reader>, chain: seq<State>, rs: seq<Reader>)
    requires Accepted(data, c, qs) && Chained(data, chain, rs)
    ensures |chain| < |c| && chain == c[..|chain|] && rs == qs[..|rs|]
    decreases |chain|
  {
    hide BlockRead, Reader.Valid;
    if |chain| > 1 {
      var k := |chain| - 1;
      AcceptedPrefix(data, c, qs, chain[..k], rs[..k]);
      assert BlockRead(data, chain[k - 1], rs[k - 1], chain[k], rs[k], false);
      assert BlockRead(data, c[k - 1], qs[k - 1], c[k], qs[k], k - 1 == |c| - 2);
      assert chain[k - 1] == c[k - 1] && rs[k - 1] == qs[k - 1];
      BlockReadUnique(data, chain[k - 1], rs[k - 1], chain[k], rs[k], false, c[k], qs[k], k - 1 == |c| - 2);
    }
  }

  /** After the blocks of `chain`, every reading of the stream reads one more, and has room for it. */
  lemma NextBlock(data: seq<Byte>, c: seq<State>, qs: seq<Reader>, chain: seq<State>, rs: seq<Reader>)
    requires Accepted(data, c, qs) && Chained(data, chain, rs)
    ensures var k := |chain|;
      && k < |c| == |qs|
      && BlockRead(data, chain[k - 1], rs[k - 1], c[k], qs[k], k == |c| - 1)
      && |c[k].out| <= |c[|c| - 1].out|
  {
    hide Block, BlockRead, Reader.Valid;
    AcceptedPrefix(data, c, qs, chain, rs);
    AcceptedMeans(data, c, qs);
    var k := |chain|;
    assert BlockRead(data, c[k - 1], qs[k - 1], c[k], qs[k], k - 1 == |c| - 2);
    assert c[k - 1] == chain[k - 1] && qs[k - 1] == rs[k - 1];
    ChainForward(data, c, k);
  }
}
