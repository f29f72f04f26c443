/**
 `make_adaptive_policy`: one current best backend for all symbols, updated by every named
 invoke. Random draws are parameters; median sums are real numbers.
 */
module AdaptivePolicy {
  import opened MetaAlloc
  import opened MetaInvoke

  /** A consultation: of a named invoke, with the draw it would make, or of an allocation. */
  datatype Query =
    | Invoke(hasWasm: bool, procSum: real, wasmSum: real, draw: Backend)
    | Alloc

  /** The policy's parameters. */
  datatype Schedule = Schedule(warmup: nat, period: nat) {
    /** The `n`-th named invoke explores. */
    predicate Explores(n: nat) {
      n < warmup || (period != 0 && (n - warmup) % period == 0)
    }
  }

  /** The backend with the lower sum; the draw decides between equal sums. */
  function Better(q: Query): Backend
    requires q.Invoke?
  {
    if q.procSum < q.wasmSum then Process else if q.wasmSum < q.procSum then Wasm else q.draw
  }

  /** The named invokes among the queries. */
  function Named(qs: seq<Query>): (r: seq<Query>)
    ensures forall q :: q in r ==> q.Invoke?
  {
    if |qs| == 0 then []
    else if qs[|qs| - 1].Invoke? then Named(qs[..|qs| - 1]) + [qs[|qs| - 1]]
    else Named(qs[..|qs| - 1])
  }

  /** The current best after the named invokes `ns`: what the last of them made it. */
  function Best(s: Schedule, ns: seq<Query>): Backend
    requires forall q :: q in ns ==> q.Invoke?
  {
    if |ns| == 0 then Process
    else
      var n := |ns| - 1;
      if s.Explores(n) then ns[n].draw else Better(ns[n])
  }

  /** The answer to `q` after the queries `qs`. */
  function Answer(s: Schedule, qs: seq<Query>, q: Query): Backend {
    var best := Best(s, Named(qs));
    if q.Invoke? && best == Wasm && !q.hasWasm then Process else best
  }

  class Adaptive {
    const schedule: Schedule
    var currentBest: Backend
    var namedInvokeCount: nat
    /** Every query so far. */
    ghost var asked: seq<Query>

    /** The state is a function of the named invokes alone. */
    ghost predicate Valid()
      reads this
    {
      namedInvokeCount == |Named(asked)| && currentBest == Best(schedule, Named(asked))
    }

    constructor (schedule: Schedule)
      ensures Valid() && asked == [] && this.schedule == schedule
    {
      this.schedule := schedule;
      currentBest, namedInvokeCount, asked := Process, 0, [];
    }

    method Decide(q: Query) returns (result: Backend)
      requires Valid()
      modifies this
      ensures Valid() && asked == old(asked) + [q]
      ensures result == Answer(schedule, old(asked), q)
    {
      asked := asked + [q];
      assert asked[..|asked| - 1] == old(asked);
      if q.Alloc? {
        return currentBest;
      }
      result := currentBest;
      if result == Wasm && !q.hasWasm {
        result := Process;
      }
      var n := namedInvokeCount;
      namedInvokeCount := namedInvokeCount + 1;
      var next;
      if n < schedule.warmup {
        next := q.draw;
      } else if schedule.period != 0 && (n - schedule.warmup) % schedule.period == 0 {
        next := q.draw;
      } else if q.procSum == q.wasmSum {
        next := q.draw;
      } else if q.procSum < q.wasmSum {
        next := Process;
      } else {
        next := Wasm;
      }
      currentBest := next;
    }
  }

  // ------------------------------------------------------------------ properties of runs

  /** Wasm is never the answer for a symbol without a wasm binding. */
  lemma NeverUnboundWasm(s: Schedule, qs: seq<Query>, q: Query)
    ensures q.Invoke? && Answer(s, qs, q) == Wasm ==> q.hasWasm
  {}

  /** So a call under this policy aborts only for what its pointer arguments are. */
  lemma AbortsOnlyForArguments(
      host: Host, owner: map<nat, Backend>, args: seq<Arg>, s: Schedule, qs: seq<Query>, q: Query)
    requires q.Invoke?
    ensures Chosen(host, owner, args, Answer(s, qs, q), q.hasWasm).Aborted? <==>
      Sees(host, owner, args, Wasm) && (Sees(host, owner, args, Process) || !q.hasWasm)
  {
    NeverUnboundWasm(s, qs, q);
  }

  lemma {:induction false} NamedConcat(qs: seq<Query>, rs: seq<Query>)
    ensures Named(qs + rs) == Named(qs) + Named(rs)
    decreases |rs|
  {
    if |rs| == 0 {
      assert qs + rs == qs;
    } else {
      assert (qs + rs)[..|qs + rs| - 1] == qs + rs[..|rs| - 1];
      NamedConcat(qs, rs[..|rs| - 1]);
    }
  }

  /** Allocation queries, however many and wherever, change no later answer. */
  lemma AllocationsAreInvisible(s: Schedule, qs: seq<Query>, n: nat, rs: seq<Query>, q: Query)
    ensures Answer(s, qs + seq(n, _ => Alloc) + rs, q) == Answer(s, qs + rs, q)
  {
    AllocationsVanish(n);
    NamedConcat(qs, seq(n, _ => Alloc));
    NamedConcat(qs + seq(n, _ => Alloc), rs);
    NamedConcat(qs, rs);
  }

  lemma {:induction false} AllocationsVanish(n: nat)
    ensures Named(seq(n, _ => Alloc)) == []
  {
    if n > 0 {
      AllocationsVanish(n - 1);
      assert seq(n, _ => Alloc)[..n - 1] == seq(n - 1, _ => Alloc);
    }
  }

  /**
   Until the next named invoke, the answer is the backend that had the lower sum at the last
   one, the draw deciding between equal sums, if that invoke did not explore; the draw if it
   did; and `process` for a symbol without a binding.
   */
  lemma AnswersArgmin(s: Schedule, qs: seq<Query>, last: Query, n: nat, q: Query)
    requires last.Invoke?
    ensures var best := if s.Explores(|Named(qs)|) then last.draw else Better(last);
      Answer(s, qs + [last] + seq(n, _ => Alloc), q)
      == if q.Alloc? || q.hasWasm then best else Process
  {
    hide Named, Best;
    NamedAfter(qs, last, n);
    BestOfLast(s, Named(qs), last);
  }

  /**
   When the last named invoke did not explore and its sums differ, the answer until the next
   one, to an allocation or a symbol with a binding, is the backend whose sum was lower.
   */
  lemma AnswersLower(s: Schedule, qs: seq<Query>, last: Query, n: nat, q: Query)
    requires last.Invoke? && !s.Explores(|Named(qs)|) && last.procSum != last.wasmSum && (q.Alloc? || q.hasWasm)
    ensures Answer(s, qs + [last] + seq(n, _ => Alloc), q) == Process <==> last.procSum < last.wasmSum
    ensures Answer(s, qs + [last] + seq(n, _ => Alloc), q) == Wasm <==> last.wasmSum < last.procSum
  {
    AnswersArgmin(s, qs, last, n, q);
  }

  /** Before the first named invoke the answer is process. */
  lemma FirstAnswer(s: Schedule, n: nat, q: Query)
    ensures Answer(s, seq(n, _ => Alloc), q) == Process
  {
    AllocationsVanish(n);
  }

  lemma NamedAfter(qs: seq<Query>, last: Query, n: nat)
    requires last.Invoke?
    ensures Named(qs + [last] + seq(n, _ => Alloc)) == Named(qs) + [last]
  {
    assert [last][..0] == [];
    assert Named([last]) == [last];
    hide Named;
    AllocationsVanish(n);
    NamedConcat(qs + [last], seq(n, _ => Alloc));
    NamedConcat(qs, [last]);
  }

  lemma BestOfLast(s: Schedule, ns: seq<Query>, last: Query)
    requires (forall q :: q in ns ==> q.Invoke?) && last.Invoke?
    ensures Best(s, ns + [last]) == if s.Explores(|ns|) then last.draw else Better(last)
  {}

  /** How many of the first `n` named invokes explore. */
  function Explored(s: Schedule, n: nat): nat {
    if n == 0 then 0 else Explored(s, n - 1) + if s.Explores(n - 1) then 1 else 0
  }

  /** All those of the warm-up explore, and of the others one in each period, beginning with the first. */
  lemma {:induction false} ExploredCount(s: Schedule, n: nat)
    ensures Explored(s, n)
      == if n <= s.warmup then n
         else s.warmup + if s.period == 0 then 0 else (n - s.warmup - 1) / s.period + 1
  {
    if n > 0 {
      ExploredCount(s, n - 1);
      if n > s.warmup + 1 && s.period > 0 {
        NextQuotient(n - s.warmup - 2, s.period);
      }
    }
  }

  lemma NextQuotient(m: nat, p: nat)
    requires p > 0
    ensures (m + 1) / p == m / p + if (m + 1) % p == 0 then 1 else 0
  {
    var d := (m + 1) / p - m / p;
    assert p * d == 1 + m % p - (m + 1) % p by {
      assert p * d == p * ((m + 1) / p) - p * (m / p);
    }
    Multiple(p, d);
  }

  lemma Multiple(p: int, e: int)
    requires p > 0 && -p < p * e <= p
    ensures e == if p * e == p then 1 else 0
  {
    Scales(p, e, 2);
    Scales(p, e, -1);
  }

  lemma Scales(p: int, e: int, k: int)
    requires p > 0
    ensures e >= k ==> p * e >= p * k
    ensures e <= k ==> p * e <= p * k
  {}
}
