/**
 What `rlbox_meta_sandbox` remembers of a symbol between calls: its latency rings and its
 pin state.
 */
module Dispatch {
  import opened MetaAlloc
  import opened Options
  import opened LatencyRing

  const UINT32: nat := 0x1_0000_0000

  // ------------------------------------------------------------------------------ pinning

  /** Length of the longest run of equal picks that ends the history. */
  function TrailingRun(h: seq<Backend>): nat {
    if |h| == 0 then 0
    else if |h| == 1 || h[|h| - 1] != h[|h| - 2] then 1
    else TrailingRun(h[..|h| - 1]) + 1
  }

  /** The last `t` picks of `h` are `b`. */
  ghost predicate EndsWith(h: seq<Backend>, b: Backend, t: nat) {
    t <= |h| && forall i :: |h| - t <= i < |h| ==> h[i] == b
  }

  /** The trailing run is what its name says. */
  lemma {:induction false} TrailingRunIs(h: seq<Backend>, b: Backend, t: nat)
    requires t > 0
    ensures EndsWith(h, b, t) <==> |h| > 0 && h[|h| - 1] == b && TrailingRun(h) >= t
    decreases t
  {
    if |h| > 0 {
      var rest := h[..|h| - 1];
      if t > 1 {
        TrailingRunIs(rest, b, t - 1);
        assert EndsWith(h, b, t) <==> h[|h| - 1] == b && EndsWith(rest, b, t - 1);
      }
    }
  }

  /** The backend of the latest run of at least `t` equal picks. */
  function PinnedBy(h: seq<Backend>, t: nat): Option<Backend> {
    if |h| == 0 then None
    else if TrailingRun(h) >= t then Some(h[|h| - 1])
    else PinnedBy(h[..|h| - 1], t)
  }

  /** A run of `t` picks of `b` ends at `n`, and no run of `t` other picks ends later. */
  ghost predicate LatestRun(h: seq<Backend>, t: nat, b: Backend, n: nat) {
    && n <= |h| && EndsWith(h[..n], b, t)
    && forall m, c :: n < m <= |h| && EndsWith(h[..m], c, t) ==> c == b
  }

  lemma RunAtEnd(h: seq<Backend>, t: nat)
    requires t > 0 && |h| > 0
    ensures forall c :: EndsWith(h[..|h|], c, t) <==> h[|h| - 1] == c && TrailingRun(h) >= t
  {
    assert h[..|h|] == h;
    forall c
      ensures EndsWith(h, c, t) <==> h[|h| - 1] == c && TrailingRun(h) >= t
    {
      TrailingRunIs(h, c, t);
    }
  }

  /** A pin names the backend of the latest run of at least `t` equal picks. */
  lemma {:induction false} PinnedIsLatest(h: seq<Backend>, t: nat)
    requires t > 0 && PinnedBy(h, t).Some?
    ensures exists n :: LatestRun(h, t, PinnedBy(h, t).value, n)
  {
    var k := |h| - 1;
    RunAtEnd(h, t);
    if TrailingRun(h) >= t {
      assert LatestRun(h, t, h[k], |h|);
    } else {
      PinnedIsLatest(h[..k], t);
      var n :| LatestRun(h[..k], t, PinnedBy(h, t).value, n);
      assert forall m :: 0 <= m <= k ==> h[..k][..m] == h[..m];
      assert LatestRun(h, t, PinnedBy(h, t).value, n);
    }
  }

  /** There is a pin exactly when some run of `t` equal picks has been made. */
  lemma {:induction false} PinnedWhen(h: seq<Backend>, t: nat)
    requires t > 0
    ensures PinnedBy(h, t).Some? <==> exists n, c :: 0 <= n <= |h| && EndsWith(h[..n], c, t)
  {
    if |h| > 0 {
      var k := |h| - 1;
      RunAtEnd(h, t);
      PinnedWhen(h[..k], t);
      assert forall n :: 0 <= n <= k ==> h[..k][..n] == h[..n];
      if TrailingRun(h) >= t {
        assert EndsWith(h[..|h|], h[k], t);
      } else if PinnedBy(h[..k], t).Some? {
        var n, c :| 0 <= n <= k && EndsWith(h[..k][..n], c, t);
        assert EndsWith(h[..n], c, t);
      }
    }
  }

  function PinCode(p: Option<Backend>): nat {
    match p
    case None => 0
    case Some(Process) => 1
    case Some(Wasm) => 2
  }

  /** `meta_symbol_record`, without its name and addresses. */
  class SymbolRecord {
    const processLatency: Ring
    const wasmLatency: Ring
    var pinned: nat
    var consecutiveSamePicks: nat
    var lastPick: Backend
    /** Every backend dispatched to so far while pinning was enabled. */
    ghost var picks: seq<Backend>

    /** The counter is the trailing run, modulo 2 to the 32; `process` is the pick before the first. */
    ghost predicate Counted()
      reads this
    {
      if picks == [] then consecutiveSamePicks == 0 && lastPick == Process
      else lastPick == picks[|picks| - 1] && consecutiveSamePicks == TrailingRun(picks) % UINT32
    }

    constructor ()
      ensures fresh(processLatency) && fresh(wasmLatency) && fresh(processLatency.samples) && fresh(wasmLatency.samples)
      ensures processLatency != wasmLatency && processLatency.samples != wasmLatency.samples
      ensures processLatency.Valid() && wasmLatency.Valid() && Counted()
      ensures picks == [] && processLatency.history == wasmLatency.history == [] && pinned == 0
    {
      processLatency := new Ring();
      wasmLatency := new Ring();
      pinned, consecutiveSamePicks, lastPick, picks := 0, 0, Process, [];
    }

    /**
     The destructor of `sample_pusher`: one more latency, and the pin state under the same
     lock.  Whatever the pin was, only a long enough run of this pick changes it; and a pin
     that is right for the threshold stays right.
     */
    method PushSample(which: Backend, ms: real, threshold: nat)
      requires processLatency.Valid() && wasmLatency.Valid()
      requires processLatency != wasmLatency && processLatency.samples != wasmLatency.samples
      requires threshold < UINT32 && Counted()
      modifies this, processLatency, wasmLatency, processLatency.samples, wasmLatency.samples
      ensures processLatency.Valid() && wasmLatency.Valid() && Counted()
      ensures picks == if threshold > 0 then old(picks) + [which] else old(picks)
      ensures pinned ==
        if threshold > 0 && Lengthens(old(picks), which, threshold) then (if which == Process then 1 else 2)
        else old(pinned)
      ensures threshold > 0 && old(pinned) == PinCode(Pinned(old(picks), threshold)) ==>
        pinned == PinCode(Pinned(picks, threshold))
      ensures processLatency.history == old(processLatency.history) + (if which == Process then [ms] else [])
      ensures wasmLatency.history == old(wasmLatency.history) + (if which == Wasm then [ms] else [])
    {
      if which == Process {
        processLatency.Push(ms);
      } else {
        wasmLatency.Push(ms);
      }
      if threshold > 0 {
        UpdatePin(which, threshold);
      }
    }

    method UpdatePin(which: Backend, threshold: nat)
      requires 0 < threshold < UINT32 && Counted()
      modifies this
      ensures Counted() && picks == old(picks) + [which]
      ensures pinned == if Lengthens(old(picks), which, threshold) then (if which == Process then 1 else 2) else old(pinned)
      ensures old(pinned) == PinCode(Pinned(old(picks), threshold)) ==> pinned == PinCode(Pinned(picks, threshold))
    {
      assert TrailingRun([]) == 0;
      hide TrailingRun, Pinned;
      CounterStep(TrailingRun(picks));
      picks := picks + [which];
      PinStep(old(picks), which, threshold);
      if lastPick == which {
        consecutiveSamePicks := (consecutiveSamePicks + 1) % UINT32;
        if consecutiveSamePicks >= threshold {
          pinned := if which == Process then 1 else 2;
        }
      } else {
        consecutiveSamePicks, lastPick := 1, which;
      }
    }
  }

  /**
   What the pin state says about the picks `h`: for a threshold of 1, the pick of `process`
   that `last_pick` starts with counts as one made before the first.
   */
  function Pinned(h: seq<Backend>, threshold: nat): Option<Backend> {
    if threshold == 1 then PinnedBy([Process] + h, 2) else PinnedBy(h, threshold)
  }

  /** The pick `which` after `h` makes the counter reach the threshold. */
  ghost predicate Lengthens(h: seq<Backend>, which: Backend, threshold: nat) {
    SameAsLast(h, which) && (TrailingRun(h) + 1) % UINT32 >= threshold
  }

  predicate SameAsLast(h: seq<Backend>, which: Backend) {
    if h == [] then which == Process else which == h[|h| - 1]
  }

  lemma PinnedNext(h: seq<Backend>, which: Backend, t: nat)
    requires t >= 1
    ensures TrailingRun(h + [which]) == if h != [] && which == h[|h| - 1] then TrailingRun(h) + 1 else 1
    ensures PinnedBy(h + [which], t) == if TrailingRun(h + [which]) >= t then Some(which) else PinnedBy(h, t)
  {
    assert (h + [which])[..|h|] == h;
  }

  lemma LongRunIsPinned(h: seq<Backend>, t: nat)
    requires h != [] && TrailingRun(h) >= t >= 1
    ensures PinnedBy(h, t) == Some(h[|h| - 1])
  {}

  lemma Wraps(n: nat, t: nat)
    requires 0 < t < UINT32
    ensures (n + 1) % UINT32 >= t ==> n + 1 >= t
    ensures n + 1 >= t && (n + 1) % UINT32 < t ==> n + 1 >= UINT32
  {}

  lemma PinStepMany(h: seq<Backend>, which: Backend, t: nat)
    requires 2 <= t < UINT32
    ensures PinnedBy(h + [which], t)
      == if SameAsLast(h, which) && (TrailingRun(h) + 1) % UINT32 >= t then Some(which) else PinnedBy(h, t)
  {
    hide PinnedBy;
    PinnedNext(h, which, t);
    Wraps(TrailingRun(h), t);
    hide TrailingRun;
    if SameAsLast(h, which) && (TrailingRun(h) + 1) % UINT32 < t && TrailingRun(h) + 1 >= t {
      if h != [] {
        LongRunIsPinned(h, t);
      }
    }
  }

  lemma RunOfTwo(h: seq<Backend>)
    requires |h| > 0
    ensures TrailingRun(h) >= 1
    ensures TrailingRun(h) >= 2 <==> |h| >= 2 && h[|h| - 1] == h[|h| - 2]
  {
    if |h| >= 2 {
      assert TrailingRun(h[..|h| - 1]) >= 1;
    }
  }

  /** The pin at threshold 1 is the latest pick that equals the one before, `process` before the first. */
  lemma RepeatedPick(h: seq<Backend>, which: Backend)
    ensures PinnedBy([Process] + (h + [which]), 2)
      == if SameAsLast(h, which) then Some(which) else PinnedBy([Process] + h, 2)
  {
    var v := [Process] + h;
    assert v[|v| - 1] == which <==> SameAsLast(h, which);
    hide TrailingRun, PinnedBy, SameAsLast;
    assert [Process] + (h + [which]) == v + [which];
    PinnedNext(v, which, 2);
    RunOfTwo(v + [which]);
  }

  lemma AlreadyPinned(h: seq<Backend>, which: Backend)
    requires TrailingRun(h) >= 2 && SameAsLast(h, which)
    ensures PinnedBy([Process] + h, 2) == Some(which)
  {
    assert h != [];
    hide TrailingRun, PinnedBy;
    RunOfTwo(h);
    RunOfTwo([Process] + h);
    LongRunIsPinned([Process] + h, 2);
  }

  lemma PinStepOne(h: seq<Backend>, which: Backend)
    ensures PinnedBy([Process] + (h + [which]), 2)
      == if SameAsLast(h, which) && (TrailingRun(h) + 1) % UINT32 >= 1 then Some(which) else PinnedBy([Process] + h, 2)
  {
    hide TrailingRun, PinnedBy, SameAsLast;
    RepeatedPick(h, which);
    Wraps(TrailingRun(h), 1);
    if TrailingRun(h) >= 2 && SameAsLast(h, which) {
      AlreadyPinned(h, which);
    }
  }

  /** One pick more, in the terms of the counter. */
  lemma PinStep(h: seq<Backend>, which: Backend, t: nat)
    requires 0 < t < UINT32
    ensures TrailingRun(h + [which]) == if SameAsLast(h, which) then TrailingRun(h) + 1 else 1
    ensures Pinned(h + [which], t)
      == if SameAsLast(h, which) && (TrailingRun(h) + 1) % UINT32 >= t then Some(which) else Pinned(h, t)
  {
    PinnedNext(h, which, t);
    assert TrailingRun([]) == 0;
    hide TrailingRun, PinnedBy;
    if t == 1 {
      PinStepOne(h, which);
    } else {
      PinStepMany(h, which, t);
    }
  }

  lemma CounterStep(n: nat)
    ensures (n % UINT32 + 1) % UINT32 == (n + 1) % UINT32
  {}

  /**
   For thresholds from 2 on the pin is that of the latest run that long.  At 1 it is exactly
   when the latest pick repeats the one before, `process` before the first, or had been
   pinned already.
   */
  lemma PinnedExactly(h: seq<Backend>, which: Backend, t: nat)
    requires t >= 1
    ensures Pinned(h + [which], t) == PinnedBy(h + [which], t) <==>
      t >= 2 || SameAsLast(h, which) || Pinned(h, 1) == Some(which)
  {
    PinnedNext(h, which, 1);
    RepeatedPick(h, which);
    RunPositive(h + [which]);
  }

  lemma RunPositive(h: seq<Backend>)
    requires |h| > 0
    ensures TrailingRun(h) >= 1
  {}
}
