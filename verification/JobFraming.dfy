/**
 The byte protocol between the shim and a pool worker: `read_full` and `write_full` over
 pipes that deliver in pieces and are interrupted, and the framing of a job and its result.
 Integers travel in the host's layout, which is little-endian without padding.
 */
module JobFraming {
  import opened Bits
  import opened Options

  const EINTR: int := 4
  const MAX_ARGS: nat := 32

  // ------------------------------------------------------------------------- integers

  function Pow256(n: nat): (r: nat)
    ensures r > 0
  {
    if n == 0 then 1 else 256 * Pow256(n - 1)
  }

  /** `v` in `n` bytes, least significant first. */
  function LittleEndian(v: nat, n: nat): (r: seq<Byte>)
    ensures |r| == n
  {
    if n == 0 then [] else [v % 256] + LittleEndian(v / 256, n - 1)
  }

  function Value(s: seq<Byte>): nat {
    if |s| == 0 then 0 else s[0] + 256 * Value(s[1..])
  }

  lemma {:induction false} ValueOf(v: nat, n: nat)
    requires v < Pow256(n)
    ensures Value(LittleEndian(v, n)) == v
  {
    if n > 0 {
      ValueOf(v / 256, n - 1);
    }
  }

  /** Two's complement in `n` bytes. */
  predicate Fits(v: int, n: nat) {
    -(Pow256(n) as int) <= 2 * v < Pow256(n)
  }

  function Unsigned(v: int, n: nat): int {
    if v < 0 then v + Pow256(n) else v
  }

  function Signed(u: int, n: nat): int {
    if 2 * u >= Pow256(n) then u - Pow256(n) else u
  }

  function Word(v: int, n: nat): (r: seq<Byte>)
    requires Fits(v, n)
    ensures |r| == n
  {
    LittleEndian(Unsigned(v, n), n)
  }

  lemma WordRoundTrip(v: int, n: nat)
    requires Fits(v, n)
    ensures Signed(Value(Word(v, n)), n) == v
  {
    ValueOf(Unsigned(v, n), n);
  }

  /** An array of `n`-byte integers. */
  function Words(vs: seq<int>, n: nat): seq<Byte>
    requires forall v :: v in vs ==> Fits(v, n)
  {
    if |vs| == 0 then [] else Word(vs[0], n) + Words(vs[1..], n)
  }

  /** The `count` integers of `n` bytes that `s` begins with. */
  function ReadWords(s: seq<Byte>, count: nat, n: nat): (r: seq<int>)
    requires |s| >= count * n
    ensures |r| == count
  {
    if count == 0 then []
    else
      assert count * n == n + (count - 1) * n && (count - 1) * n >= 0;
      [Signed(Value(s[..n]), n)] + ReadWords(s[n..], count - 1, n)
  }

  lemma {:induction false} WordsRoundTrip(vs: seq<int>, n: nat)
    requires forall v :: v in vs ==> Fits(v, n)
    ensures |Words(vs, n)| == |vs| * n
    ensures ReadWords(Words(vs, n), |vs|, n) == vs
  {
    hide Word, Signed, Value;
    if |vs| > 0 {
      WordsRoundTrip(vs[1..], n);
      WordRoundTrip(vs[0], n);
      var s := Words(vs, n);
      assert |vs| * n == n + (|vs| - 1) * n;
      assert s[..n] == Word(vs[0], n) && s[n..] == Words(vs[1..], n);
    }
  }

  // ------------------------------------------------------------------------------ jobs

  /** What the dispatcher sends: function address, return tag, and a tag and a value per argument. */
  datatype Job = Job(funcAddr: nat, retTag: int, tags: seq<int>, values: seq<int>) {
    ghost predicate Valid() {
      && funcAddr < Pow256(8) && Fits(retTag, 4)
      && |tags| == |values| <= MAX_ARGS
      && (forall t :: t in tags ==> Fits(t, 4))
      && (forall v :: v in values ==> Fits(v, 8))
    }
  }

  const HEADER: nat := 16

  /** `WireJobHeader`. */
  ghost function Header(j: Job): (r: seq<Byte>)
    requires j.Valid()
    ensures |r| == HEADER
  {
    LittleEndian(j.funcAddr, 8) + Word(j.retTag, 4) + LittleEndian(|j.tags|, 4)
  }

  /** The bytes of a job on the wire. */
  ghost function Wire(j: Job): seq<Byte>
    requires j.Valid()
  {
    Header(j) + Words(j.tags, 4) + Words(j.values, 8)
  }

  /** `nargs` of a header. */
  function Nargs(h: seq<Byte>): nat
    requires |h| == HEADER
  {
    Value(h[12..])
  }

  /** The job that a byte sequence begins with, and how many bytes it takes. */
  function Parse(s: seq<Byte>): Option<(Job, nat)> {
    if |s| < HEADER then None
    else
      var n := Nargs(s[..HEADER]);
      if n > MAX_ARGS || |s| < HEADER + 4 * n + 8 * n then None
      else
        Some((Job(Value(s[..8]), Signed(Value(s[8..12]), 4),
                  ReadWords(s[HEADER..][..4 * n], n, 4), ReadWords(s[HEADER + 4 * n..][..8 * n], n, 8)),
              HEADER + 4 * n + 8 * n))
  }

  lemma HeaderParts(j: Job)
    requires j.Valid()
    ensures Value(Header(j)[..8]) == j.funcAddr
    ensures Signed(Value(Header(j)[8..12]), 4) == j.retTag
    ensures Nargs(Header(j)) == |j.tags|
  {
    var h := Header(j);
    assert h[..8] == LittleEndian(j.funcAddr, 8) && h[8..12] == Word(j.retTag, 4);
    assert h[12..] == LittleEndian(|j.tags|, 4);
    ValueOf(j.funcAddr, 8);
    WordRoundTrip(j.retTag, 4);
    assert Pow256(4) > MAX_ARGS by {
      assert Pow256(1) == 256 && Pow256(4) >= 256;
    }
    ValueOf(|j.tags|, 4);
  }

  /** The `n` bytes at `at` are the two's complement of `v`, lowest first. */
  ghost predicate Holds(s: seq<Byte>, at: nat, n: nat, v: int) {
    at + n <= |s| && forall k :: 0 <= k < n ==> s[at + k] == v / Pow256(k) % 256
  }

  lemma {:induction false} LittleEndianAt(v: nat, n: nat, k: nat)
    requires k < n
    ensures LittleEndian(v, n)[k] == v / Pow256(k) % 256
  {
    if k > 0 {
      LittleEndianAt(v / 256, n - 1, k - 1);
      DivDiv(v, 256, Pow256(k - 1));
    }
  }

  lemma DivDiv(v: int, a: int, b: int)
    requires a > 0 && b > 0
    ensures a * b > 0 && v / a / b == v / (a * b)
  {
    var x, low := v / a, v % a;
    var q, r := x / b, x % b;
    Nested(a, b, q, r, low);
    Inside(a, b, r, low);
    DivMod(v, a * b, q, a * r + low);
  }

  lemma Nested(a: int, b: int, q: int, r: int, low: int)
    ensures a * (b * q + r) + low == (a * b) * q + (a * r + low)
  {}

  lemma Inside(a: int, b: int, r: int, low: int)
    requires 0 <= r < b && 0 <= low < a
    ensures 0 <= a * r + low < a * b && a * b > 0
  {
    Scaled(a, b - r);
    assert a * (b - r) == a * b - a * r;
  }

  /** Adding a multiple of 256 to the `n` does not change the lower bytes. */
  lemma {:induction false} LowerBytes(v: int, n: nat, k: nat)
    requires k < n
    ensures (v + Pow256(n)) / Pow256(k) % 256 == v / Pow256(k) % 256
    decreases n
  {
    if k == 0 {
      Shifted(v, 256, 256, Pow256(n - 1));
      assert Pow256(0) == 1;
    } else {
      Shifted(v, 256, 256, Pow256(n - 1));
      LowerBytes(v / 256, n - 1, k - 1);
      DivDiv(v, 256, Pow256(k - 1));
      DivDiv(v + Pow256(n), 256, Pow256(k - 1));
    }
  }

  lemma Shifted(v: int, a: int, b: int, m: int)
    requires a == b > 0
    ensures (v + a * m) / a == v / a + m && (v + a * m) % a == v % a
  {
    DivMod(v + a * m, a, v / a + m, v % a);
  }

  lemma WordHolds(v: int, n: nat)
    requires Fits(v, n)
    ensures Holds(Word(v, n), 0, n, v)
  {
    forall k: nat | k < n
      ensures Word(v, n)[k] == v / Pow256(k) % 256
    {
      LittleEndianAt(Unsigned(v, n), n, k);
      LowerBytes(v, n, k);
    }
  }

  lemma HoldsInside(s: seq<Byte>, before: seq<Byte>, after: seq<Byte>, at: nat, n: nat, v: int)
    requires Holds(s, at, n, v)
    ensures Holds(before + s + after, |before| + at, n, v)
  {
    hide Pow256;
    var t := before + s + after;
    forall k | 0 <= k < n
      ensures t[|before| + at + k] == v / Pow256(k) % 256
    {
      assert t[|before| + at + k] == s[at + k];
    }
  }

  lemma {:induction false} WordsHold(vs: seq<int>, n: nat, i: nat)
    requires (forall v :: v in vs ==> Fits(v, n)) && i < |vs|
    ensures Holds(Words(vs, n), n * i, n, vs[i])
  {
    hide Word, Holds, Fits;
    var w, rest := Word(vs[0], n), Words(vs[1..], n);
    if i == 0 {
      WordHolds(vs[0], n);
      HoldsInside(w, [], rest, 0, n, vs[0]);
      assert [] + w + rest == Words(vs, n);
    } else {
      WordsHold(vs[1..], n, i - 1);
      HoldsInside(rest, w, [], n * (i - 1), n, vs[i]);
      assert w + rest + [] == Words(vs, n);
    }
  }

  /** `WireJobHeader` and the two arrays: where each field lies, in the layout of the source's structure. */
  lemma WireLayout(j: Job)
    requires j.Valid()
    ensures |Wire(j)| == 16 + 12 * |j.tags|
    ensures Holds(Wire(j), 0, 8, j.funcAddr) && Holds(Wire(j), 8, 4, j.retTag) && Holds(Wire(j), 12, 4, |j.tags|)
    ensures forall i :: 0 <= i < |j.tags| ==> Holds(Wire(j), 16 + 4 * i, 4, j.tags[i])
    ensures forall i :: 0 <= i < |j.values| ==> Holds(Wire(j), 16 + 4 * |j.tags| + 8 * i, 8, j.values[i])
  {
    HeaderHolds(j);
    WireParts(j);
    hide Holds, LittleEndian, Word, Words, Fits, Pow256, Header;
    var h, t, v := Header(j), Words(j.tags, 4), Words(j.values, 8);
    HoldsInside(h, [], t + v, 0, 8, j.funcAddr);
    HoldsInside(h, [], t + v, 8, 4, j.retTag);
    HoldsInside(h, [], t + v, 12, 4, |j.tags|);
    assert [] + h + (t + v) == Wire(j);
    forall i | 0 <= i < |j.tags|
      ensures Holds(Wire(j), 16 + 4 * i, 4, j.tags[i])
    {
      WordsHold(j.tags, 4, i);
      HoldsInside(t, h, v, 4 * i, 4, j.tags[i]);
    }
    forall i | 0 <= i < |j.values|
      ensures Holds(Wire(j), 16 + 4 * |j.tags| + 8 * i, 8, j.values[i])
    {
      WordsHold(j.values, 8, i);
      HoldsInside(v, h + t, [], 8 * i, 8, j.values[i]);
      assert h + t + v + [] == Wire(j);
    }
  }

  lemma HeaderHolds(j: Job)
    requires j.Valid()
    ensures Holds(Header(j), 0, 8, j.funcAddr) && Holds(Header(j), 8, 4, j.retTag) && Holds(Header(j), 12, 4, |j.tags|)
  {
    var a, b, c := LittleEndian(j.funcAddr, 8), Word(j.retTag, 4), LittleEndian(|j.tags|, 4);
    forall k: nat | k < 8
      ensures a[k] == j.funcAddr / Pow256(k) % 256
    {
      LittleEndianAt(j.funcAddr, 8, k);
    }
    forall k: nat | k < 4
      ensures c[k] == |j.tags| / Pow256(k) % 256
    {
      LittleEndianAt(|j.tags|, 4, k);
    }
    WordHolds(j.retTag, 4);
    assert Holds(a, 0, 8, j.funcAddr) && Holds(c, 0, 4, |j.tags|);
    hide Holds, LittleEndian, Word, Fits, Pow256;
    HoldsInside(a, [], b + c, 0, 8, j.funcAddr);
    HoldsInside(b, a, c, 0, 4, j.retTag);
    HoldsInside(c, a + b, [], 0, 4, |j.tags|);
    assert [] + a + (b + c) == a + b + c && a + b + c + [] == a + b + c;
  }

  /** Framing round trip: whatever follows on the wire, the job that was sent is the job that is read. */
  lemma ParseWire(j: Job, rest: seq<Byte>)
    requires j.Valid()
    ensures Parse(Wire(j) + rest) == Some((j, |Wire(j)|))
  {
    hide Value, Signed, LittleEndian, Word, Words, ReadWords, Fits;
    HeaderParts(j);
    WordsRoundTrip(j.tags, 4);
    WordsRoundTrip(j.values, 8);
    var s, n := Wire(j) + rest, |j.tags|;
    var h, t, v := Header(j), Words(j.tags, 4), Words(j.values, 8);
    assert s[..HEADER] == h;
    assert s[..8] == h[..8] && s[8..12] == h[8..12];
    assert s[HEADER..][..4 * n] == t;
    assert s[HEADER + 4 * n..][..8 * n] == v;
  }

  /** Distinct jobs have distinct bytes. */
  lemma WireInjective(j: Job, k: Job)
    requires j.Valid() && k.Valid() && Wire(j) == Wire(k)
    ensures j == k
  {
    ParseWire(j, []);
    ParseWire(k, []);
  }

  // ----------------------------------------------------------------------------- pipes

  /**
   A pipe: bytes written and not yet read. The kernel delivers any nonempty part of what it
   is asked for, and may answer without delivering; `hiccups` bounds how often it does so
   with `errno` EINTR. A reliable pipe answers so only for an interrupt, and for a read
   that finds the pipe empty and its writer gone.
   */
  class Pipe {
    var pending: seq<Byte>
    var errno: int
    ghost var hiccups: nat
    ghost const reliable: bool

    constructor (ghost reliable: bool, ghost hiccups: nat)
      ensures pending == [] && this.reliable == reliable && this.hiccups == hiccups
    {
      this.reliable, this.hiccups := reliable, hiccups;
      pending, errno := [], 0;
    }

    /** The system call `read`. */
    method Read(n: nat) returns (r: int, data: seq<Byte>)
      requires n > 0
      modifies this
      ensures -1 <= r <= n && |data| == (if r > 0 then r else 0)
      ensures old(pending) == data + pending
      ensures r >= 0 ==> hiccups == old(hiccups)
      ensures r < 0 && errno == EINTR ==> hiccups < old(hiccups)
      ensures reliable && r == 0 ==> pending == []
      ensures reliable && r < 0 ==> errno == EINTR
    {
      if pending == [] {
        return 0, [];
      }
      r :| 1 <= r <= n && r <= |pending|;
      data, pending := pending[..r], pending[r..];
    }

    /** The system call `write`. An answer of 0 leaves `errno` as it was. */
    method Write(data: seq<Byte>) returns (w: int)
      requires |data| > 0
      modifies this
      ensures -1 <= w <= |data|
      ensures pending == old(pending) + data[..if w > 0 then w else 0]
      ensures w > 0 ==> hiccups == old(hiccups)
      ensures w == 0 ==> errno == old(errno)
      ensures w <= 0 && errno == EINTR ==> hiccups < old(hiccups)
      ensures reliable && w <= 0 ==> errno == EINTR
    {
      w :| 1 <= w <= |data|;
      pending := pending + data[..w];
    }
  }

  /** `read_full`: on success exactly `n` bytes have moved from the pipe into the buffer. */
  method ReadFull(pipe: Pipe, buf: array<Byte>, n: nat) returns (ok: bool)
    requires n <= buf.Length
    modifies pipe, buf
    ensures ok ==> old(pipe.pending) == buf[..n] + pipe.pending
    ensures pipe.reliable ==> (ok <==> |old(pipe.pending)| >= n)
    ensures forall i :: n <= i < buf.Length ==> buf[i] == old(buf[i])
  {
    var p, left := 0, n;
    while left > 0
      invariant 0 <= p && 0 <= left && p + left == n
      invariant old(pipe.pending) == buf[..p] + pipe.pending
      invariant forall i :: n <= i < buf.Length ==> buf[i] == old(buf[i])
      decreases left + pipe.hiccups
    {
      var r, data := pipe.Read(left);
      if r > 0 {
        forall i | 0 <= i < r {
          buf[p + i] := data[i];
        }
        assert buf[..p + r] == buf[..p] + data;
        p, left := p + r, left - r;
      } else if r == 0 {
        return false;
      } else if pipe.errno == EINTR {
        assert data == [];
        continue;
      } else {
        return false;
      }
    }
    ok := true;
  }

  /** `write_full`: on success exactly the data is behind what the pipe held, otherwise a part of it. */
  method WriteFull(pipe: Pipe, data: seq<Byte>) returns (ok: bool)
    modifies pipe
    ensures old(pipe.pending) <= pipe.pending <= old(pipe.pending) + data
    ensures ok ==> pipe.pending == old(pipe.pending) + data
    ensures pipe.reliable ==> ok
  {
    var p, left := 0, |data|;
    while left > 0
      invariant 0 <= p && 0 <= left && p + left == |data|
      invariant pipe.pending == old(pipe.pending) + data[..p]
      decreases left + pipe.hiccups
    {
      var w := pipe.Write(data[p..]);
      if w > 0 {
        assert data[..p + w] == data[..p] + data[p..][..w];
        p, left := p + w, left - w;
      } else if pipe.errno == EINTR {
        continue;
      } else {
        return false;
      }
    }
    ok := true;
  }

  // -------------------------------------------------------------------------- the protocol

  lemma WireParts(j: Job)
    requires j.Valid()
    ensures |Words(j.tags, 4)| == 4 * |j.tags| && |Words(j.values, 8)| == 8 * |j.tags|
    ensures |Wire(j)| == HEADER + 4 * |j.tags| + 8 * |j.tags|
  {
    WordsRoundTrip(j.tags, 4);
    WordsRoundTrip(j.values, 8);
  }

  /** The sending half of `dispatch_to_worker`. */
  method SendJob(pipe: Pipe, funcAddr: nat, retTag: int, tags: seq<int>, values: seq<int>) returns (ok: bool)
    requires Job(funcAddr, retTag, tags, values).Valid()
    modifies pipe
    ensures ok ==> pipe.pending == old(pipe.pending) + Wire(Job(funcAddr, retTag, tags, values))
    ensures pipe.reliable ==> ok
  {
    hide LittleEndian, Word, Words, Fits, Pow256;
    ghost var j := Job(funcAddr, retTag, tags, values);
    WireParts(j);
    HeaderFits(|tags|);
    var header := LittleEndian(funcAddr, 8) + Word(retTag, 4) + LittleEndian(|tags|, 4);
    ok := WriteFull(pipe, header);
    if ok && tags != [] {
      ok := WriteFull(pipe, Words(tags, 4));
      if ok {
        ok := WriteFull(pipe, Words(values, 8));
      }
    }
  }

  lemma HeaderFits(n: nat)
    requires n <= MAX_ARGS
    ensures n < Pow256(4)
  {
    assert Pow256(1) == 256 && Pow256(4) >= 256;
  }

  lemma ParseFrom(wire: seq<Byte>, h: seq<Byte>, t: seq<Byte>, v: seq<Byte>, n: nat)
    requires |h| == HEADER && n == Nargs(h) <= MAX_ARGS && |t| == 4 * n && |v| == 8 * n
    requires h + t + v <= wire
    ensures Parse(wire)
      == Some((Job(Value(h[..8]), Signed(Value(h[8..12]), 4), ReadWords(t, n, 4), ReadWords(v, n, 8)),
               HEADER + 12 * n))
  {
    hide Value, Signed, ReadWords;
    assert wire[..HEADER] == h && wire[..8] == h[..8] && wire[8..12] == h[8..12];
    assert wire[HEADER..][..4 * n] == t && wire[HEADER + 4 * n..][..8 * n] == v;
  }

  /** What is no job: too short for a header, with too many arguments, or too short for its arguments. */
  lemma ParseFails(wire: seq<Byte>, h: seq<Byte>, rest: seq<Byte>)
    ensures |wire| < HEADER ==> Parse(wire).None?
    ensures |h| == HEADER && wire == h + rest && (Nargs(h) > MAX_ARGS || |rest| < 12 * Nargs(h)) ==> Parse(wire).None?
  {
    if |h| == HEADER && wire == h + rest {
      assert wire[..HEADER] == h;
    }
  }

  /** The two arrays of a job of `n` arguments. */
  method ReceiveArgs(pipe: Pipe, n: nat) returns (ok: bool, t: seq<Byte>, v: seq<Byte>)
    requires n <= MAX_ARGS
    modifies pipe
    ensures ok ==> |t| == 4 * n && |v| == 8 * n && old(pipe.pending) == t + v + pipe.pending
    ensures pipe.reliable ==> (ok <==> |old(pipe.pending)| >= 12 * n)
  {
    var tags, values := new Byte[4 * MAX_ARGS], new Byte[8 * MAX_ARGS];
    if n > 0 {
      ok := ReadFull(pipe, tags, 4 * n);
      if !ok {
        return false, [], [];
      }
      ghost var rest := pipe.pending;
      ok := ReadFull(pipe, values, 8 * n);
      if !ok {
        return false, [], [];
      }
      assert tags[..4 * n] + (values[..8 * n] + pipe.pending) == tags[..4 * n] + values[..8 * n] + pipe.pending;
    }
    ok, t, v := true, tags[..4 * n], values[..8 * n];
  }

  /** The receiving half of `worker_main`; None where the worker exits with 1. */
  method ReceiveJob(pipe: Pipe) returns (r: Option<Job>)
    modifies pipe
    ensures r.Some? ==> Parse(old(pipe.pending)).Some? && r.value == Parse(old(pipe.pending)).value.0
    ensures r.Some? ==> pipe.pending == old(pipe.pending)[Parse(old(pipe.pending)).value.1..]
    ensures pipe.reliable ==> (r.Some? <==> Parse(old(pipe.pending)).Some?)
  {
    hide Parse, Nargs, Value, Signed, ReadWords;
    ghost var wire := pipe.pending;
    var hdr := new Byte[HEADER];
    var ok := ReadFull(pipe, hdr, HEADER);
    if !ok {
      ParseFails(wire, [], []);
      return None;
    }
    var h := hdr[..];
    ghost var rest := pipe.pending;
    var n := Nargs(h);
    if n > MAX_ARGS {
      ParseFails(wire, h, rest);
      return None;
    }
    var t, v;
    ok, t, v := ReceiveArgs(pipe, n);
    if !ok {
      ParseFails(wire, h, rest);
      return None;
    }
    assert wire == h + t + v + pipe.pending;
    ParseFrom(wire, h, t, v, n);
    r := Some(Job(Value(h[..8]), Signed(Value(h[8..12]), 4), ReadWords(t, n, 4), ReadWords(v, n, 8)));
  }

  /** `worker_main`, with the library function and the outcome of the filter as parameters: its exit status. */
  method WorkerMain(req: Pipe, resp: Pipe, run: Job -> int, filterOk: bool) returns (status: int)
    requires req != resp
    requires forall j :: Fits(run(j), 8)
    modifies req, resp
    ensures status == 0 ==>
      && filterOk && Parse(old(req.pending)).Some?
      && resp.pending <= old(resp.pending) + Word(run(Parse(old(req.pending)).value.0), 8)
      && (resp.reliable ==> resp.pending == old(resp.pending) + Word(run(Parse(old(req.pending)).value.0), 8))
    ensures status != 0 ==> resp.pending == old(resp.pending)
    ensures req.reliable ==> (status == 0 <==> filterOk && Parse(old(req.pending)).Some?)
  {
    hide Parse, Word;
    var job := ReceiveJob(req);
    if job.None? {
      return 1;
    }
    if !filterOk {
      return 2;
    }
    var _ := WriteFull(resp, Word(run(job.value), 8));
    status := 0;
  }

  /**
   `dispatch_to_worker`, the worker's life included: the caller gets what the library
   function returns for the job it described, or 0; over reliable pipes it gets 0 instead
   only when the worker could not install its filter.
   */
  method DispatchToWorker(req: Pipe, resp: Pipe, funcAddr: nat, retTag: int, tags: seq<int>, values: seq<int>,
                          run: Job -> int, filterOk: bool)
    returns (result: int)
    requires req != resp && req.pending == resp.pending == []
    requires Job(funcAddr, retTag, tags, values).Valid()
    requires forall j :: Fits(run(j), 8)
    modifies req, resp
    ensures result == 0 || result == run(Job(funcAddr, retTag, tags, values))
    ensures req.reliable && resp.reliable ==>
      result == if filterOk then run(Job(funcAddr, retTag, tags, values)) else 0
  {
    hide Word, Wire, Parse;
    ghost var j := Job(funcAddr, retTag, tags, values);
    var ok := SendJob(req, funcAddr, retTag, tags, values);
    ghost var sent := req.pending;
    var status := WorkerMain(req, resp, run, filterOk);
    result := 0;
    if ok {
      assert sent == Wire(j) && Wire(j) + [] == Wire(j);
      ParseWire(j, []);
      var buf := new Byte[8];
      ghost var answer := resp.pending;
      assert status == 0 ==> |answer| <= 8;
      ok := ReadFull(resp, buf, 8);
      if ok {
        assert buf[..8] == answer[..8];
        assert status == 0;
        assert [] + Word(run(j), 8) == Word(run(j), 8);
        assert answer[..8] == Word(run(j), 8)[..8] == Word(run(j), 8);
        WordRoundTrip(run(j), 8);
        result := Signed(Value(buf[..8]), 8);
      }
    }
  }

  /**
   The fallback for an empty pool: a child that inherits the arguments answers over a pipe
   of its own.  It has no filter to install.
   */
  method InlineFork(resp: Pipe, funcAddr: nat, retTag: int, tags: seq<int>, values: seq<int>, run: Job -> int,
                    forked: bool)
    returns (result: int)
    requires resp.pending == [] && forall j :: Fits(run(j), 8)
    modifies resp
    ensures result == 0 || result == run(Job(funcAddr, retTag, tags, values))
    ensures resp.reliable ==> result == if forked then run(Job(funcAddr, retTag, tags, values)) else 0
  {
    hide Word;
    if !forked {
      return 0;
    }
    ghost var answer := Word(run(Job(funcAddr, retTag, tags, values)), 8);
    var _ := WriteFull(resp, Word(run(Job(funcAddr, retTag, tags, values)), 8));
    ghost var sent := resp.pending;
    assert [] + answer == answer;
    var buf := new Byte[8];
    var ok := ReadFull(resp, buf, 8);
    result := 0;
    if ok {
      assert buf[..8] == sent[..8] == answer[..8] == answer;
      WordRoundTrip(run(Job(funcAddr, retTag, tags, values)), 8);
      result := Signed(Value(buf[..8]), 8);
    }
  }

  /**
   `handle_invoke`, with a worker or with an inline fork: what is not a call, or too long a
   one, is answered 0 unsent; any other call is answered with its own result or with 0.
   */
  method HandleInvoke(mapped: bool, worker: bool, req: Pipe, resp: Pipe, funcAddr: nat, retTag: int, tags: seq<int>,
                      values: seq<int>, run: Job -> int, filterOk: bool, forked: bool)
    returns (result: int)
    requires req != resp && req.pending == resp.pending == []
    requires funcAddr < Pow256(8) && Fits(retTag, 4)
    requires (forall t :: t in tags ==> Fits(t, 4)) && (forall v :: v in values ==> Fits(v, 8))
    requires forall j :: Fits(run(j), 8)
    modifies req, resp
    ensures !mapped || funcAddr == 0 || |tags| != |values| || |tags| > 32 ==>
      result == 0 && req.pending == [] && resp.pending == []
    ensures result == 0 || result == run(Job(funcAddr, retTag, tags, values))
    ensures mapped && funcAddr != 0 && |tags| == |values| <= 32 && req.reliable && resp.reliable ==>
      result == if (if worker then filterOk else forked) then run(Job(funcAddr, retTag, tags, values)) else 0
  {
    if !mapped || funcAddr == 0 {
      return 0;
    }
    if |tags| != |values| {
      return 0;
    }
    if |tags| > MAX_ARGS {
      return 0;
    }
    if worker {
      result := DispatchToWorker(req, resp, funcAddr, retTag, tags, values, run, filterOk);
    } else {
      result := InlineFork(resp, funcAddr, retTag, tags, values, run, forked);
    }
  }
}
