/**
 Bit-level arithmetic on natural numbers, one binary digit at a time.

 Machine words are modelled as `nat` values, with the operators of C written as
 recursive functions: `Shl(x, n)` is `x << n` before reduction to a word,
 `Shr(x, n)` is `x >> n`, `Low(x, n)` is `x & ((1 << n) - 1)`, and `BitAnd`,
 `BitOr` are `&` and `|`.  Where a word's width can be exceeded the callers
 reduce with `Low(x, 16)` or `Low(x, 32)`.
 */
module Bits {

  type Byte = b: int | 0 <= b < 256

  function Pow2(n: nat): (r: nat)
    ensures r > 0
  {
    if n == 0 then 1 else 2 * Pow2(n - 1)
  }

  function Shl(x: nat, n: nat): (r: nat)
    ensures r >= x
  {
    if n == 0 then x else 2 * Shl(x, n - 1)
  }

  function Shr(x: nat, n: nat): (r: nat)
    ensures r <= x
    decreases n
  {
    if n == 0 then x else Shr(x / 2, n - 1)
  }

  function Low(x: nat, n: nat): (r: nat)
    ensures r <= x && r < Pow2(n)
    decreases n
  {
    if n == 0 then 0 else x % 2 + 2 * Low(x / 2, n - 1)
  }

  /** Bitwise `a & b`. */
  function BitAnd(a: nat, b: nat): nat {
    if a == 0 || b == 0 then 0
    else (if a % 2 == 1 && b % 2 == 1 then 1 else 0) + 2 * BitAnd(a / 2, b / 2)
  }

  /** Bitwise `a | b`. */
  function BitOr(a: nat, b: nat): nat
    decreases a + b
  {
    if a == 0 then b
    else if b == 0 then a
    else (if a % 2 == 1 || b % 2 == 1 then 1 else 0) + 2 * BitOr(a / 2, b / 2)
  }

  /** The low `n` bits of `v` in reverse order. */
  function Rev(v: nat, n: nat): (r: nat)
    ensures r < Pow2(n)
    decreases n
  {
    if n == 0 then 0
    else if v % 2 == 1 then Pow2(n - 1) + Rev(v / 2, n - 1)
    else Rev(v / 2, n - 1)
  }

  // ------------------------------------------------- one step of each definition

  lemma ShlStep(x: nat, n: nat)
    ensures Shl(x, 0) == x
    ensures n > 0 ==> Shl(x, n) == 2 * Shl(x, n - 1)
  {}

  lemma ShrStep(x: nat, n: nat)
    ensures Shr(x, 0) == x
    ensures n > 0 ==> Shr(x, n) == Shr(x / 2, n - 1)
  {}

  lemma LowStep(x: nat, n: nat)
    ensures Low(x, 0) == 0
    ensures n > 0 ==> Low(x, n) == x % 2 + 2 * Low(x / 2, n - 1)
  {}

  lemma RevStep(x: nat, n: nat)
    ensures Rev(x, 0) == 0
    ensures n > 0 ==> Rev(x, n) == Rev(x / 2, n - 1) + if x % 2 == 1 then Pow2(n - 1) else 0
  {}

  lemma Pow2Step(n: nat)
    ensures Pow2(0) == 1
    ensures n > 0 ==> Pow2(n) == 2 * Pow2(n - 1)
  {}

  // ---------------------------------------------------------------- shifts

  lemma {:induction false} ShlPlus(x: nat, y: nat, n: nat)
    ensures Shl(x + y, n) == Shl(x, n) + Shl(y, n)
  {
    if n > 0 {
      ShlPlus(x, y, n - 1);
    }
  }

  lemma {:induction false} ShlOne(n: nat)
    ensures Shl(1, n) == Pow2(n)
  {
    if n > 0 {
      ShlOne(n - 1);
    }
  }

  lemma ShlOneBit(x: nat)
    ensures Shl(x, 1) == 2 * x
  {
    assert Shl(x, 0) == x;
  }

  lemma {:induction false} ShlZero(n: nat)
    ensures Shl(0, n) == 0
  {
    if n > 0 {
      ShlZero(n - 1);
    }
  }

  lemma {:induction false} ShlShl(x: nat, a: nat, b: nat)
    ensures Shl(Shl(x, a), b) == Shl(x, a + b)
  {
    if b > 0 {
      ShlShl(x, a, b - 1);
    }
  }

  lemma {:induction false} ShrShr(x: nat, a: nat, b: nat)
    ensures Shr(Shr(x, a), b) == Shr(x, a + b)
    decreases a
  {
    if a > 0 {
      ShrShr(x / 2, a - 1, b);
    }
  }

  lemma {:induction false} Pow2Add(a: nat, b: nat)
    ensures Pow2(a + b) == Shl(Pow2(a), b)
  {
    if b > 0 {
      Pow2Add(a, b - 1);
    }
  }

  lemma {:induction false} Pow2Monotone(a: nat, b: nat)
    requires a <= b
    ensures Pow2(a) <= Pow2(b)
    decreases b
  {
    if a < b {
      Pow2Monotone(a, b - 1);
    }
  }

  lemma Pow2Double(n: nat)
    ensures Pow2(n + 1) == 2 * Pow2(n)
  {}

  /** Shifting left keeps order, and distinct values stay `2^n` apart. */
  lemma ShlLess(x: nat, y: nat, n: nat)
    requires x < y
    ensures Shl(x, n) + Pow2(n) <= Shl(y, n)
  {
    ShlPlus(x, y - x, n);
    ShlPlus(1, y - x - 1, n);
    ShlOne(n);
  }

  lemma {:induction false} ShlCancel(x: nat, y: nat, n: nat)
    requires Shl(x, n) <= Shl(y, n)
    ensures x <= y
  {
    if n > 0 {
      ShlCancel(x, y, n - 1);
    }
  }

  lemma ShrOne(x: nat)
    ensures Shr(x, 1) == x / 2
  {
    assert Shr(x / 2, 0) == x / 2;
  }

  /** Every number is its high part shifted back up plus its low part. */
  lemma {:induction false} Decompose(x: nat, n: nat)
    ensures x == Shl(Shr(x, n), n) + Low(x, n)
    decreases n
  {
    if n > 0 {
      Decompose(x / 2, n - 1);
    }
  }

  /** High and low part are determined by such a sum. */
  lemma {:induction false} Compose(q: nat, r: nat, n: nat)
    requires r < Pow2(n)
    ensures Shr(Shl(q, n) + r, n) == q && Low(Shl(q, n) + r, n) == r
    decreases n
  {
    if n > 0 {
      Compose(q, r / 2, n - 1);
      var x := Shl(q, n) + r;
      assert x / 2 == Shl(q, n - 1) + r / 2 && x % 2 == r % 2;
    }
  }

  lemma LowSmall(x: nat, n: nat)
    requires x < Pow2(n)
    ensures Low(x, n) == x && Shr(x, n) == 0
  {
    ShlZero(n);
    Compose(0, x, n);
  }

  /** `k >> n` is `c` exactly on the interval of length `2^n` that starts at `c << n`. */
  lemma ShrInterval(k: nat, n: nat, c: nat)
    ensures Shr(k, n) == c <==> Shl(c, n) <= k < Shl(c, n) + Pow2(n)
    ensures Shr(k, n) < c <==> k < Shl(c, n)
  {
    Decompose(k, n);
    var q := Shr(k, n);
    if q < c {
      ShlLess(q, c, n);
    } else if c < q {
      ShlLess(c, q, n);
    }
  }

  lemma {:induction false} LowLow(x: nat, n: nat, m: nat)
    requires n <= m
    ensures Low(Low(x, m), n) == Low(x, n)
    decreases n
  {
    hide Low, Pow2;
    LowStep(x, n);
    LowStep(x, m);
    LowStep(Low(x, m), n);
    if n > 0 {
      LowLow(x / 2, n - 1, m - 1);
    }
  }

  /** Splitting the low `a + b` bits at position `a`. */
  lemma {:induction false} LowSplit(x: nat, a: nat, b: nat)
    ensures Low(x, a + b) == Low(x, a) + Shl(Low(Shr(x, a), b), a)
    decreases a
  {
    hide Low, Shl, Shr, Pow2;
    LowStep(x, a);
    LowStep(x, a + b);
    ShrStep(x, a);
    ShlStep(Low(Shr(x, a), b), a);
    if a > 0 {
      LowSplit(x / 2, a - 1, b);
    }
  }

  // ------------------------------------------------------- bitwise operators

  /** Masking with `(1 << n) - 1` keeps the low `n` bits. */
  lemma {:induction false} BitAndLow(a: nat, n: nat)
    ensures BitAnd(a, Pow2(n) - 1) == Low(a, n)
    decreases n
  {
    if n > 0 {
      BitAndLow(a / 2, n - 1);
      BitAndStep(a, Pow2(n) - 1);
    }
  }

  lemma BitAndStep(a: nat, b: nat)
    ensures BitAnd(a, b) == (if a % 2 == 1 && b % 2 == 1 then 1 else 0) + 2 * BitAnd(a / 2, b / 2)
  {}

  lemma BitOrStep(a: nat, b: nat)
    ensures BitOr(a, b) == (if a % 2 == 1 || b % 2 == 1 then 1 else 0) + 2 * BitOr(a / 2, b / 2)
  {}

  /** `&` acts separately on the low `k` bits and on the rest. */
  lemma {:induction false} BitAndSplit(a: nat, b: nat, c: nat, d: nat, k: nat)
    requires a < Pow2(k) && c < Pow2(k)
    ensures BitAnd(a + Shl(b, k), c + Shl(d, k)) == BitAnd(a, c) + Shl(BitAnd(b, d), k)
    decreases k
  {
    hide Shl, Pow2, BitAnd;
    Pow2Step(k);
    ShlStep(b, k);
    ShlStep(d, k);
    ShlStep(BitAnd(b, d), k);
    BitAndStep(a, c);
    if k > 0 {
      BitAndSplit(a / 2, b, c / 2, d, k - 1);
      BitAndStep(a + Shl(b, k), c + Shl(d, k));
    } else {
      BitAndStep(0, 0);
    }
  }

  /** `|` acts separately on the low `k` bits and on the rest. */
  lemma {:induction false} BitOrSplit(a: nat, b: nat, c: nat, d: nat, k: nat)
    requires a < Pow2(k) && c < Pow2(k)
    ensures BitOr(a + Shl(b, k), c + Shl(d, k)) == BitOr(a, c) + Shl(BitOr(b, d), k)
    decreases k
  {
    hide Shl, Pow2, BitOr;
    Pow2Step(k);
    ShlStep(b, k);
    ShlStep(d, k);
    ShlStep(BitOr(b, d), k);
    BitOrStep(a, c);
    if k > 0 {
      BitOrSplit(a / 2, b, c / 2, d, k - 1);
      BitOrStep(a + Shl(b, k), c + Shl(d, k));
    } else {
      BitOrStep(0, 0);
    }
  }

  /** Or-ing in a value shifted above the occupied bits adds it. */
  lemma BitOrDisjoint(a: nat, b: nat, k: nat)
    requires a < Pow2(k)
    ensures BitOr(a, Shl(b, k)) == a + Shl(b, k)
  {
    BitOrSplit(a, 0, 0, b, k);
    ShlZero(k);
  }

  lemma BitOrHigh(b: nat, a: nat, k: nat)
    requires a < Pow2(k)
    ensures BitOr(Shl(b, k), a) == Shl(b, k) + a
  {
    hide Shl, Pow2;
    BitOrSplit(0, b, a, 0, k);
    ShlZero(k);
  }

  // ---------------------------------------------------------- bit reversal

  /** Reversing `a + b` bits: the low `a` bits end up on top. */
  lemma {:induction false} RevSplit(v: nat, a: nat, b: nat)
    ensures Rev(v, a + b) == Shl(Rev(v, a), b) + Rev(Shr(v, a), b)
    decreases a
  {
    hide Rev, Shl, Shr, Pow2;
    RevStep(v, a);
    RevStep(v, a + b);
    ShrStep(v, a);
    if a == 0 {
      ShlZero(b);
    } else {
      RevSplit(v / 2, a - 1, b);
      Pow2Add(a - 1, b);
      ShlPlus(Pow2(a - 1), Rev(v / 2, a - 1), b);
    }
  }

  /** Only the low `n` bits take part in a reversal of `n` bits. */
  lemma {:induction false} RevLow(v: nat, n: nat)
    ensures Rev(Low(v, n), n) == Rev(v, n)
    decreases n
  {
    if n > 0 {
      RevLow(v / 2, n - 1);
    }
  }

  lemma OneBit(x: nat)
    ensures Rev(x, 1) == Low(x, 1) == x % 2
  {
    RevStep(x, 1);
    RevStep(x / 2, 0);
    LowStep(x, 1);
    LowStep(x / 2, 0);
    Pow2Step(0);
  }

  /** Reversing twice restores the low bits. */
  lemma {:induction false} RevRev(v: nat, n: nat)
    ensures Rev(Rev(v, n), n) == Low(v, n)
    decreases n
  {
    hide Rev, Low, Shl, Shr, Pow2;
    if n == 0 {
      RevStep(Rev(v, n), 0);
      LowStep(v, 0);
    } else {
      var m := n - 1;
      var b := Shr(v, m) % 2;
      RevSplit(v, m, 1);
      LowSplit(v, m, 1);
      OneBit(Shr(v, m));
      ShlOneBit(Rev(v, m));
      RevStep(2 * Rev(v, m) + b, n);
      RevRev(v, m);
      ShlOne(m);
      ShlZero(m);
    }
  }

  /** The top `n` bits of a `w`-bit reversal are the reversal of the low `n` bits. */
  lemma RevPrefix(v: nat, n: nat, w: nat)
    requires n <= w
    ensures Shr(Rev(v, w), w - n) == Rev(v, n)
  {
    hide Rev, Shr, Shl, Pow2;
    RevSplit(v, n, w - n);
    Compose(Rev(v, n), Rev(Shr(v, n), w - n), w - n);
  }

  /** Comparing low bits with a reversed code is comparing reversed bits with the code. */
  lemma RevCompare(v: nat, code: nat, n: nat, w: nat)
    requires n <= w && code < Pow2(n)
    ensures Low(v, n) == Rev(code, n) <==> Shr(Rev(v, w), w - n) == code
  {
    RevPrefix(v, n, w);
    RevRev(code, n);
    RevRev(v, n);
    RevLow(v, n);
    LowSmall(code, n);
  }

  // ------------------------------------- stbi__bitreverse16, stbi__bit_reverse

  /** One stage: the bits under mask `hi` move down by `s`, those under `lo` move up. */
  function Swap(v: nat, hi: nat, lo: nat, s: nat): nat {
    BitOr(Shr(BitAnd(v, hi), s), Shl(BitAnd(v, lo), s))
  }

  /** `stbi__bitreverse16`: four masked swap stages. */
  function BitReverse16(n: nat): nat {
    Swap(Swap(Swap(Swap(n, 0xAAAA, 0x5555, 1), 0xCCCC, 0x3333, 2), 0xF0F0, 0x0F0F, 4), 0xFF00, 0x00FF, 8)
  }

  /** `stbi__bit_reverse`: reverse sixteen bits and shift the excess away. */
  function BitReverse(v: nat, bits: nat): nat
    requires bits <= 16
  {
    Shr(BitReverse16(v), 16 - bits)
  }

  lemma {:induction false} BitAndMask(x: nat, h: nat)
    ensures BitAnd(x, h) <= h
    decreases x
  {
    if x > 0 && h > 0 {
      BitAndMask(x / 2, h / 2);
    }
  }

  lemma {:induction false} BitAndLowZero(x: nat, h: nat, s: nat)
    requires Low(h, s) == 0
    ensures Low(BitAnd(x, h), s) == 0
    decreases s
  {
    if s > 0 {
      BitAndStep(x, h);
      BitAndLowZero(x / 2, h / 2, s - 1);
    }
  }

  lemma DownSplit(x: nat, y: nat, hx: nat, hy: nat, s: nat, k: nat)
    requires x < Pow2(k) && hx < Pow2(k) && Low(hx, s) == 0 && Low(hy, s) == 0
    ensures Shr(BitAnd(x + Shl(y, k), hx + Shl(hy, k)), s)
         == Shr(BitAnd(x, hx), s) + Shl(Shr(BitAnd(y, hy), s), k)
  {
    hide *;
    BitAndSplit(x, y, hx, hy, k);
    var a, b := BitAnd(x, hx), BitAnd(y, hy);
    BitAndLowZero(x, hx, s);
    BitAndLowZero(y, hy, s);
    Decompose(a, s);
    Decompose(b, s);
    var a', b' := Shr(a, s), Shr(b, s);
    ShlShl(b', s, k);
    ShlShl(b', k, s);
    ShlPlus(a', Shl(b', k), s);
    Compose(a' + Shl(b', k), 0, s);
  }

  lemma UpSplit(x: nat, y: nat, lx: nat, ly: nat, s: nat, k: nat)
    requires x < Pow2(k) && lx < Pow2(k)
    ensures Shl(BitAnd(x + Shl(y, k), lx + Shl(ly, k)), s)
         == Shl(BitAnd(x, lx), s) + Shl(Shl(BitAnd(y, ly), s), k)
  {
    hide Shl, BitAnd, Pow2;
    BitAndSplit(x, y, lx, ly, k);
    var c, d := BitAnd(x, lx), BitAnd(y, ly);
    ShlShl(d, s, k);
    ShlShl(d, k, s);
    ShlPlus(c, Shl(d, k), s);
  }

  lemma ShlMonotone(x: nat, y: nat, n: nat)
    requires x <= y
    ensures Shl(x, n) <= Shl(y, n)
  {
    ShlPlus(x, y - x, n);
  }

  /** A stage whose masks do not cross position `k` acts separately below and above it. */
  lemma SwapSplit(x: nat, y: nat, hx: nat, hy: nat, lx: nat, ly: nat, s: nat, k: nat)
    requires x < Pow2(k) && hx < Pow2(k) && Shl(lx, s) < Pow2(k)
    requires Low(hx, s) == 0 && Low(hy, s) == 0
    ensures Swap(x + Shl(y, k), hx + Shl(hy, k), lx + Shl(ly, k), s)
         == Swap(x, hx, lx, s) + Shl(Swap(y, hy, ly, s), k)
  {
    hide Shl, Shr, BitAnd, BitOr, Low, Pow2;
    DownSplit(x, y, hx, hy, s, k);
    UpSplit(x, y, lx, ly, s, k);
    BitAndMask(x, hx);
    BitAndMask(x, lx);
    ShlMonotone(BitAnd(x, lx), lx, s);
    BitOrSplit(Shr(BitAnd(x, hx), s), Shr(BitAnd(y, hy), s),
               Shl(BitAnd(x, lx), s), Shl(BitAnd(y, ly), s), k);
  }

  /** With all-ones masks a stage exchanges two adjacent groups of `k` bits. */
  lemma GroupSwap(x: nat, y: nat, k: nat)
    requires x < Pow2(k) && y < Pow2(k)
    ensures Swap(x + Shl(y, k), Shl(Pow2(k) - 1, k), Pow2(k) - 1, k) == y + Shl(x, k)
  {
    hide Shl, Shr, Low, Pow2, BitAnd, BitOr;
    var m := Pow2(k) - 1;
    BitAndSplit(x, y, 0, m, k);
    BitAndSplit(x, y, m, 0, k);
    ShlZero(k);
    BitAndMask(x, 0);
    BitAndMask(y, 0);
    BitAndLow(x, k);
    BitAndLow(y, k);
    LowSmall(x, k);
    LowSmall(y, k);
    Compose(y, 0, k);
    BitOrDisjoint(y, x, k);
  }

  lemma RevGroups(x: nat, y: nat, k: nat)
    requires x < Pow2(k)
    ensures Rev(x + Shl(y, k), 2 * k) == Rev(y, k) + Shl(Rev(x, k), k)
  {
    RevSplit(x + Shl(y, k), k, k);
    Compose(y, x, k);
    RevLow(x + Shl(y, k), k);
  }

  lemma ShlNibble(x: nat)
    ensures Shl(x, 4) == 16 * x && Pow2(4) == 16
  {
    assert Shl(x, 1) == 2 * Shl(x, 0) && Shl(x, 2) == 2 * Shl(x, 1) && Shl(x, 3) == 2 * Shl(x, 2);
  }

  lemma ShlByte(x: nat)
    ensures Shl(x, 8) == 256 * x && Pow2(8) == 256
  {
    ShlNibble(x);
    ShlNibble(16 * x);
    ShlNibble(Pow2(4));
    ShlShl(x, 4, 4);
    Pow2Add(4, 4);
  }

  lemma Pow2Nine()
    ensures Pow2(9) == 512
  {
    ShlByte(0);
    Pow2Double(8);
  }

  lemma Pow2Sixteen()
    ensures Pow2(16) == 0x10000
  {
    ShlByte(Pow2(8));
    Pow2Add(8, 8);
  }

  lemma PairReversed(x: nat)
    requires x < 4
    ensures Swap(x, 0x2, 0x1, 1) == Rev(x, 2)
  {
    var k := 1;
    GroupSwap(x % 2, x / 2, k);
    assert x % 2 == Rev(x % 2, k) && x / 2 == Rev(x / 2, k);
    RevGroups(x % 2, x / 2, k);
    assert Shl(x / 2, k) == 2 * (x / 2) && Shl(1, k) == 2;
  }

  /** The first two stages reverse a nibble. */
  lemma NibbleReversed(x: nat)
    requires x < 16
    ensures Swap(x, 0xA, 0x5, 1) < 16
    ensures Swap(Swap(x, 0xA, 0x5, 1), 0xC, 0x3, 2) == Rev(x, 4)
  {
    hide BitAnd, BitOr, Rev, Swap;
    var p, q := x % 4, x / 4;
    SwapSplit(p, q, 2, 2, 1, 1, 1, 2);
    PairReversed(p);
    PairReversed(q);
    GroupSwap(Rev(p, 2), Rev(q, 2), 2);
    RevGroups(p, q, 2);
  }

  /** The first three stages reverse a byte. */
  lemma ByteReversed(x: nat)
    requires x < 256
    ensures Swap(x, 0xAA, 0x55, 1) < 256 && Swap(Swap(x, 0xAA, 0x55, 1), 0xCC, 0x33, 2) < 256
    ensures Swap(Swap(Swap(x, 0xAA, 0x55, 1), 0xCC, 0x33, 2), 0xF0, 0x0F, 4) == Rev(x, 8)
  {
    hide BitAnd, BitOr, Rev, Swap;
    var p, q := x % 16, x / 16;
    ShlNibble(q);
    ShlNibble(0xA);
    ShlNibble(0x5);
    ShlNibble(0xC);
    ShlNibble(0x3);
    SwapSplit(p, q, 0xA, 0xA, 0x5, 0x5, 1, 4);
    NibbleReversed(p);
    NibbleReversed(q);
    var p1, q1 := Swap(p, 0xA, 0x5, 1), Swap(q, 0xA, 0x5, 1);
    ShlNibble(q1);
    SwapSplit(p1, q1, 0xC, 0xC, 0x3, 0x3, 2, 4);
    ShlNibble(0xF);
    ShlNibble(Rev(q, 4));
    GroupSwap(Rev(p, 4), Rev(q, 4), 4);
    RevGroups(p, q, 4);
  }

  /** All four stages reverse a 16-bit word. */
  lemma WordReversed(x: nat)
    requires x < 0x10000
    ensures BitReverse16(x) == Rev(x, 16)
  {
    hide BitAnd, BitOr, Rev, Swap;
    var p, q := x % 256, x / 256;
    SwapSplit(p, q, 0xAA, 0xAA, 0x55, 0x55, 1, 8);
    ByteReversed(p);
    ByteReversed(q);
    var p1, q1 := Swap(p, 0xAA, 0x55, 1), Swap(q, 0xAA, 0x55, 1);
    SwapSplit(p1, q1, 0xCC, 0xCC, 0x33, 0x33, 2, 8);
    var p2, q2 := Swap(p1, 0xCC, 0x33, 2), Swap(q1, 0xCC, 0x33, 2);
    SwapSplit(p2, q2, 0xF0, 0xF0, 0x0F, 0x0F, 4, 8);
    ShlByte(q);
    ShlByte(0xAA);
    ShlByte(0x55);
    ShlByte(0xCC);
    ShlByte(0x33);
    ShlByte(0xF0);
    ShlByte(0x0F);
    ShlByte(0xFF);
    ShlByte(0);
    ShlByte(q1);
    ShlByte(q2);
    GroupSwap(Rev(p, 8), Rev(q, 8), 8);
    RevGroups(p, q, 8);
  }

  /** The masks drop everything above bit 15, so any word may be passed. */
  lemma BitReverse16Correct(v: nat)
    ensures BitReverse16(v) == Rev(v, 16)
  {
    hide BitAnd, BitOr, Rev, Shl, Shr, Low, Pow2;
    var w := 16;
    Pow2Sixteen();
    Decompose(v, w);
    BitAndSplit(Low(v, w), Shr(v, w), 0xAAAA, 0, w);
    BitAndSplit(Low(v, w), Shr(v, w), 0x5555, 0, w);
    ShlZero(w);
    assert BitAnd(Shr(v, w), 0) == 0 by { BitAndMask(Shr(v, w), 0); }
    assert Swap(v, 0xAAAA, 0x5555, 1) == Swap(Low(v, w), 0xAAAA, 0x5555, 1);
    WordReversed(Low(v, w));
    RevLow(v, w);
  }

  /** Reversing a code of at most `s` bits. */
  lemma BitReverseShort(code: nat, s: nat)
    requires s <= 16
    ensures BitReverse(code, s) == Rev(code, s)
  {
    hide BitReverse16, Rev, Shr;
    BitReverse16Correct(code);
    RevPrefix(code, s, 16);
  }

  /** Adding `2^s` keeps the low `s` bits. */
  lemma LowNext(j: nat, s: nat)
    ensures Low(j + Pow2(s), s) == Low(j, s)
  {
    hide Low, Shl, Shr, Pow2;
    Decompose(j, s);
    ShlPlus(Shr(j, s), 1, s);
    ShlOne(s);
    Compose(Shr(j, s) + 1, Low(j, s), s);
  }

  // ------------------------------------------------ words read from the top

  /** Shifting a `w`-bit word left drops its top `s` bits. */
  lemma ShiftOut(x: nat, s: nat, w: nat)
    requires s <= w && x < Pow2(w)
    ensures Low(Shl(x, s), w) == Shl(Low(x, w - s), s)
  {
    hide Low, Shl, Shr, Pow2;
    Decompose(x, w - s);
    var hi, lo := Shr(x, w - s), Low(x, w - s);
    ShlPlus(Shl(hi, w - s), lo, s);
    ShlShl(hi, w - s, s);
    ShlLess(lo, Pow2(w - s), s);
    Pow2Add(w - s, s);
    Compose(hi, Shl(lo, s), w);
  }

  /** The bits from `a` up to `a + b`. */
  lemma ShrLow(x: nat, a: nat, b: nat)
    ensures Shr(Low(x, a + b), a) == Low(Shr(x, a), b)
  {
    hide Low, Shl, Shr, Pow2;
    LowSplit(x, a, b);
    Compose(Low(Shr(x, a), b), Low(x, a), a);
  }

  /** After shifting out `s` bits, the top `m` bits are those that followed. */
  lemma TopAfter(x: nat, s: nat, m: nat, w: nat)
    requires s + m <= w && x < Pow2(w)
    ensures Shr(Low(Shl(x, s), w), w - m) == Low(Shr(x, w - s - m), m)
  {
    hide Low, Shl, Shr, Pow2;
    ShiftOut(x, s, w);
    ShrShr(Shl(Low(x, w - s), s), s, w - s - m);
    Pow2Positive(s);
    Compose(Low(x, w - s), 0, s);
    ShrLow(x, w - s - m, m);
  }

  /** Shifting out in two steps. */
  lemma ShiftOutTwice(x: nat, s: nat, m: nat, w: nat)
    requires s + m <= w && x < Pow2(w)
    ensures Low(Shl(Low(Shl(x, s), w), m), w) == Low(Shl(x, s + m), w)
  {
    hide Low, Shl, Shr, Pow2;
    ShiftOut(x, s, w);
    ShiftOut(Low(Shl(x, s), w), m, w);
    ShiftOut(x, s + m, w);
    // the low w - m bits of a shifted word are its shifted low w - m - s bits
    LowOfShl(Low(x, w - s), s, w - m);
    LowLow(x, w - s - m, w - s);
    ShlShl(Low(x, w - s - m), s, m);
  }

  lemma LowOfShl(x: nat, s: nat, n: nat)
    requires s <= n
    ensures Low(Shl(x, s), n) == Shl(Low(x, n - s), s)
  {
    hide Low, Shl, Shr, Pow2;
    Pow2Positive(s);
    Compose(x, 0, s);
    LowSplit(Shl(x, s), s, n - s);
    LowOfShlZero(x, s);
  }

  lemma LowOfShlZero(x: nat, s: nat)
    ensures Low(Shl(x, s), s) == 0
  {
    hide Low, Shl, Shr, Pow2;
    Pow2Positive(s);
    Compose(x, 0, s);
  }

  lemma Pow2Positive(n: nat)
    ensures 0 < Pow2(n)
  {}

  /** A number of `n` bits, lowest first. */
  function Lsb(v: nat, n: nat): (s: seq<nat>)
    ensures |s| == n
    decreases n
  {
    if n == 0 then [] else [v % 2] + Lsb(v / 2, n - 1)
  }

  /** A codeword of `n` bits, highest first. */
  function Msb(v: nat, n: nat): (s: seq<nat>)
    ensures |s| == n
    decreases n
  {
    if n == 0 then [] else Msb(v / 2, n - 1) + [v % 2]
  }

  /** The number whose bits are `s`, lowest first. */
  function FromBits(s: seq<nat>): nat {
    if |s| == 0 then 0 else s[0] + 2 * FromBits(s[1..])
  }

  lemma {:induction false} BitOf(s: seq<nat>, k: nat)
    requires k < |s| && forall i :: 0 <= i < |s| ==> s[i] < 2
    ensures Shr(FromBits(s), k) % 2 == s[k]
  {
    if k > 0 {
      BitOf(s[1..], k - 1);
      ShrShr(FromBits(s), 1, k - 1);
      ShrOne(FromBits(s));
      hide Shr;
      assert FromBits(s) / 2 == FromBits(s[1..]);
    }
  }

  // ------------------------------------------------------------------------- division

  lemma Scaled(s: int, e: int)
    requires s > 0
    ensures e > 0 ==> s * e >= s
    ensures e < 0 ==> s * e <= -s
  {}

  /** Quotient and remainder are unique. */
  lemma DivMod(x: int, s: int, q: int, r: int)
    requires s > 0 && x == s * q + r && 0 <= r < s
    ensures x / s == q && x % s == r
  {
    Scaled(s, x / s - q);
    assert s * (x / s - q) == s * (x / s) - s * q;
  }
}
