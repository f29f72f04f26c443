/**
 `latency_ring` of `rlbox_meta_sandbox`: a ring of the eight most recent latencies and its
 lower median. Latencies are real numbers.
 */
module LatencyRing {
  const N: nat := 8

  // --------------------------------------------------------------------- order statistics

  /** How many samples are below `m`. */
  function Below(s: seq<real>, m: real): nat {
    if |s| == 0 then 0 else Below(s[1..], m) + (if s[0] < m then 1 else 0)
  }

  /** How many samples are at most `m`. */
  function AtMost(s: seq<real>, m: real): nat {
    if |s| == 0 then 0 else AtMost(s[1..], m) + (if s[0] <= m then 1 else 0)
  }

  /** `m` is the sample of rank ceil(n / 2). */
  ghost predicate LowerMedian(s: seq<real>, m: real) {
    m in s && Below(s, m) <= (|s| - 1) / 2 < AtMost(s, m)
  }

  lemma {:induction false} CountsApart(s: seq<real>, m: real, n: real)
    requires m < n
    ensures AtMost(s, m) <= Below(s, n)
  {
    if |s| > 0 {
      CountsApart(s[1..], m, n);
    }
  }

  /** There is at most one lower median. */
  lemma LowerMedianUnique(s: seq<real>, m: real, n: real)
    requires LowerMedian(s, m) && LowerMedian(s, n)
    ensures m == n
  {
    if m < n {
      CountsApart(s, m, n);
    } else if n < m {
      CountsApart(s, n, m);
    }
  }

  lemma {:induction false} CountsConcat(s: seq<real>, t: seq<real>, m: real)
    ensures Below(s + t, m) == Below(s, m) + Below(t, m)
    ensures AtMost(s + t, m) == AtMost(s, m) + AtMost(t, m)
  {
    if |s| == 0 {
      assert s + t == t;
    } else {
      assert (s + t)[1..] == s[1..] + t;
      CountsConcat(s[1..], t, m);
    }
  }

  lemma {:induction false} CountsFit(s: seq<real>, m: real)
    ensures Below(s, m) <= AtMost(s, m) <= |s|
  {
    if |s| > 0 {
      CountsFit(s[1..], m);
    }
  }

  /** Fewer than half of the samples are below it, and at least half are not above it. */
  lemma LowerMedianHalves(s: seq<real>, m: real)
    ensures LowerMedian(s, m) <==> m in s && 2 * Below(s, m) < |s| <= 2 * AtMost(s, m)
  {
    CountsFit(s, m);
  }

  function Without(s: seq<real>, j: nat): seq<real>
    requires j < |s|
  {
    s[..j] + s[j + 1..]
  }

  lemma WithoutOne(s: seq<real>, j: nat, m: real)
    requires j < |s|
    ensures multiset(Without(s, j)) == multiset(s) - multiset{s[j]}
    ensures Below(s, m) == Below(Without(s, j), m) + (if s[j] < m then 1 else 0)
    ensures AtMost(s, m) == AtMost(Without(s, j), m) + (if s[j] <= m then 1 else 0)
  {
    var a, b := s[..j], s[j + 1..];
    assert s == a + ([s[j]] + b);
    assert ([s[j]] + b)[1..] == b;
    CountsConcat(a, [s[j]] + b, m);
    CountsConcat(a, b, m);
    assert multiset(s) == multiset(a) + multiset{s[j]} + multiset(b);
  }

  /** Counts do not depend on the order of samples. */
  lemma {:induction false} CountsPermute(s: seq<real>, t: seq<real>, m: real)
    requires multiset(s) == multiset(t)
    ensures Below(s, m) == Below(t, m) && AtMost(s, m) == AtMost(t, m)
  {
    hide Below, AtMost;
    if |s| == 0 {
      assert |multiset(t)| == 0;
    } else {
      assert s[0] in multiset(t);
      var j :| 0 <= j < |t| && t[j] == s[0];
      WithoutOne(s, 0, m);
      WithoutOne(t, j, m);
      CountsPermute(Without(s, 0), Without(t, j), m);
    }
  }

  ghost predicate Ordered(s: seq<real>) {
    forall i, j :: 0 <= i <= j < |s| ==> s[i] <= s[j]
  }

  lemma {:induction false} AllAbove(s: seq<real>, m: real)
    requires forall i :: 0 <= i < |s| ==> m <= s[i]
    ensures Below(s, m) == 0
  {
    if |s| > 0 {
      AllAbove(s[1..], m);
    }
  }

  lemma {:induction false} AllWithin(s: seq<real>, m: real)
    requires forall i :: 0 <= i < |s| ==> s[i] <= m
    ensures AtMost(s, m) == |s|
  {
    if |s| > 0 {
      AllWithin(s[1..], m);
    }
  }

  lemma {:induction false} CountBound(s: seq<real>, m: real)
    ensures Below(s, m) <= |s|
  {
    if |s| > 0 {
      CountBound(s[1..], m);
    }
  }

  /** Position `k` of an ordered list has rank `k`. */
  lemma RankInOrder(s: seq<real>, k: nat)
    requires Ordered(s) && k < |s|
    ensures Below(s, s[k]) <= k < AtMost(s, s[k])
  {
    var m := s[k];
    assert s == s[..k] + s[k..] && s == s[..k + 1] + s[k + 1..];
    CountsConcat(s[..k], s[k..], m);
    AllAbove(s[k..], m);
    CountBound(s[..k], m);
    CountsConcat(s[..k + 1], s[k + 1..], m);
    AllWithin(s[..k + 1], m);
  }

  // -------------------------------------------------------------------------------- sorting

  function Insert(x: real, s: seq<real>): seq<real> {
    if |s| == 0 || x <= s[0] then [x] + s else [s[0]] + Insert(x, s[1..])
  }

  lemma {:induction false} InsertAdds(x: real, s: seq<real>)
    ensures multiset(Insert(x, s)) == multiset(s) + multiset{x}
  {
    if |s| > 0 && s[0] < x {
      InsertAdds(x, s[1..]);
      assert s == [s[0]] + s[1..];
    }
  }

  lemma {:induction false} InsertOrders(x: real, s: seq<real>)
    requires Ordered(s)
    ensures Ordered(Insert(x, s))
  {
    if |s| > 0 && s[0] < x {
      var t := Insert(x, s[1..]);
      InsertOrders(x, s[1..]);
      InsertAdds(x, s[1..]);
      forall i | 0 <= i < |t|
        ensures s[0] <= t[i]
      {
        assert t[i] in multiset(t);
        assert t[i] == x || t[i] in s[1..];
      }
    }
  }

  /** `std::sort`, by its contract. */
  function Sorted(s: seq<real>): (r: seq<real>)
    ensures Ordered(r) && multiset(r) == multiset(s)
  {
    if |s| == 0 then []
    else
      assert s == [s[0]] + s[1..];
      InsertAdds(s[0], Sorted(s[1..]));
      InsertOrders(s[0], Sorted(s[1..]));
      Insert(s[0], Sorted(s[1..]))
  }

  // ------------------------------------------------------------------------------- the ring

  lemma Rotated(a: seq<real>, p: nat)
    requires p <= |a|
    ensures multiset(a[p..] + a[..p]) == multiset(a)
  {
    assert a == a[..p] + a[p..];
  }

  /** The array holds the last eight of `history`, the next one to be overwritten first. */
  ghost predicate HoldsLast(a: seq<real>, history: seq<real>) {
    && |a| == N
    && var w := |history|;
       if w < N then a[..w] == history else history[w - N..] == a[w % N..] + a[..w % N]
  }

  lemma Pushed(a: seq<real>, history: seq<real>, ms: real)
    requires HoldsLast(a, history)
    ensures HoldsLast(a[|history| % N := ms], history + [ms])
  {
    var w := |history|;
    var p, h, b := w % N, history + [ms], a[w % N := ms];
    if w + 1 >= N {
      if p < N - 1 {
        assert (w + 1) % N == p + 1;
        assert b[p + 1..] + b[..p + 1] == (a[p..] + a[..p])[1..] + [ms];
      } else {
        assert (w + 1) % N == 0;
        assert b == a[..p] + [ms];
        assert w >= N ==> (a[p..] + a[..p])[1..] == a[..p];
      }
      assert h[w + 1 - N..] == history[w + 1 - N..] + [ms];
    }
  }

  class Ring {
    const samples: array<real>
    var writes: nat
    /** Every latency pushed so far. */
    ghost var history: seq<real>

    ghost predicate Valid()
      reads this, samples
    {
      samples.Length == N && writes == |history| && HoldsLast(samples[..], history)
    }

    /** The last eight latencies, or all when there are fewer, oldest first. */
    ghost function Window(): seq<real>
      reads this
    {
      if |history| < N then history else history[|history| - N..]
    }

    constructor ()
      ensures Valid() && history == [] && fresh(samples)
    {
      samples := new real[N](_ => 0.0);
      writes, history := 0, [];
    }

    method Push(ms: real)
      requires Valid()
      modifies this, samples
      ensures Valid() && history == old(history) + [ms]
      ensures Window() == if |old(history)| < 8 then old(Window()) + [ms] else old(Window())[1..] + [ms]
    {
      var p := writes % N;
      ghost var before := samples[..];
      samples[p] := ms;
      assert samples[..] == before[p := ms];
      Pushed(before, history, ms);
      writes, history := writes + 1, history + [ms];
    }

    method Size() returns (n: nat)
      requires Valid()
      ensures n == |Window()|
    {
      n := if writes < N then writes else N;
    }

    /** The occupied prefix of the array holds the window. */
    lemma Holds()
      requires Valid()
      ensures |Window()| <= N && multiset(samples[..|Window()|]) == multiset(Window())
    {
      if writes >= N {
        var p := writes % N;
        Rotated(samples[..], p);
        assert samples[..|Window()|] == samples[..];
        assert samples[..][p..] == samples[p..] && samples[..][..p] == samples[..p];
      }
    }

    method Median() returns (m: real)
      requires Valid()
      ensures if Window() == [] then m == 0.0 else LowerMedian(Window(), m)
    {
      var n := Size();
      if n == 0 {
        return 0.0;
      }
      var copy := Sorted(samples[..n]) + samples[n..];
      Holds();
      ghost var order := Sorted(samples[..n]);
      assert |order| == |multiset(order)| == n;
      var k := if n / 2 == 0 then 0 else (n - 1) / 2;
      m := copy[k];
      RankInOrder(order, k);
      CountsPermute(order, Window(), m);
      assert m in multiset(order);
    }
  }
}
