/** `test_host` of bench.py: `count` sequential GET requests to one host, each
    classified by status range, with latency statistics over the attempts that
    got a response. The network and the clock are replaced by the sequence of
    attempt outcomes. */
module Probe {

  /** One attempt: a response with its status code and the measured elapsed
      seconds, or a `RequestException` (no status, no timing recorded). */
  datatype Outcome = Response(status: int, elapsed: real) | TransportError

  /** Where an attempt is counted. Statuses outside [200, 600) get a latency
      sample but land in no counter. */
  datatype Bucket = Succeeded | Failed | Unbucketed | Errored

  function Classify(o: Outcome): Bucket {
    match o
    case TransportError => Errored
    case Response(status, _) =>
      if 200 <= status < 400 then Succeeded
      else if 400 <= status < 600 then Failed
      else Unbucketed
  }

  /** The number of attempts in bucket `b`. */
  function Count(outs: seq<Outcome>, b: Bucket): nat {
    if outs == [] then 0
    else (if Classify(outs[0]) == b then 1 else 0) + Count(outs[1..], b)
  }

  /** The elapsed time of every attempt that got a response, in attempt order. */
  function Samples(outs: seq<Outcome>): seq<real> {
    if outs == [] then []
    else
      match outs[0]
      case Response(_, elapsed) => [elapsed] + Samples(outs[1..])
      case TransportError => Samples(outs[1..])
  }

  /** Every received status lies in [200, 600). */
  predicate AllStatusesBucketed(outs: seq<Outcome>) {
    forall k :: 0 <= k < |outs| ==> outs[k].Response? ==> 200 <= outs[k].status < 600
  }

  lemma {:induction false} CountAppend(outs: seq<Outcome>, o: Outcome, b: Bucket)
    ensures Count(outs + [o], b) == Count(outs, b) + (if Classify(o) == b then 1 else 0)
    decreases |outs|
  {
    if outs == [] {
      assert [] + [o] == [o];
    } else {
      assert (outs + [o])[1..] == outs[1..] + [o];
      CountAppend(outs[1..], o, b);
    }
  }

  lemma {:induction false} SamplesAppend(outs: seq<Outcome>, o: Outcome)
    ensures Samples(outs + [o]) == Samples(outs) + (if o.Response? then [o.elapsed] else [])
    decreases |outs|
  {
    if outs == [] {
      assert [] + [o] == [o];
    } else {
      assert (outs + [o])[1..] == outs[1..] + [o];
      SamplesAppend(outs[1..], o);
    }
  }

  /** Every attempt lands in exactly one of the four buckets. */
  lemma {:induction false} CountPartition(outs: seq<Outcome>)
    ensures Count(outs, Succeeded) + Count(outs, Failed) + Count(outs, Unbucketed) + Count(outs, Errored) == |outs|
    decreases |outs|
  {
    if outs != [] {
      CountPartition(outs[1..]);
    }
  }

  /** One sample per attempt that got a response, whatever its status. */
  lemma {:induction false} SamplesLength(outs: seq<Outcome>)
    ensures |Samples(outs)| == Count(outs, Succeeded) + Count(outs, Failed) + Count(outs, Unbucketed)
    decreases |outs|
  {
    if outs != [] {
      SamplesLength(outs[1..]);
    }
  }

  /** No attempt is left uncounted exactly when every received status is in [200, 600). */
  lemma {:induction false} UnbucketedNone(outs: seq<Outcome>)
    ensures Count(outs, Unbucketed) == 0 <==> AllStatusesBucketed(outs)
    decreases |outs|
  {
    if outs != [] {
      UnbucketedNone(outs[1..]);
      assert forall k :: 1 <= k < |outs| ==> outs[k] == outs[1..][k - 1];
      assert AllStatusesBucketed(outs) ==> AllStatusesBucketed(outs[1..]) by {
        assert forall k :: 0 <= k < |outs| - 1 ==> outs[1..][k] == outs[k + 1];
      }
    }
  }

  // Latency statistics.

  function Sum(xs: seq<real>): real {
    if xs == [] then 0.0 else xs[0] + Sum(xs[1..])
  }

  /** `min(times)`. */
  function Min(xs: seq<real>): (m: real)
    requires |xs| > 0
    ensures m in xs
    ensures forall k :: 0 <= k < |xs| ==> m <= xs[k]
  {
    if |xs| == 1 then xs[0]
    else
      var m := Min(xs[1..]);
      assert forall k :: 1 <= k < |xs| ==> xs[k] == xs[1..][k - 1];
      if xs[0] <= m then xs[0] else m
  }

  /** `max(times)`. */
  function Max(xs: seq<real>): (m: real)
    requires |xs| > 0
    ensures m in xs
    ensures forall k :: 0 <= k < |xs| ==> xs[k] <= m
  {
    if |xs| == 1 then xs[0]
    else
      var m := Max(xs[1..]);
      assert forall k :: 1 <= k < |xs| ==> xs[k] == xs[1..][k - 1];
      if m <= xs[0] then xs[0] else m
  }

  /** `n` copies of `x` added up: n * x without a multiplication the solver must reason about. */
  function Times(n: nat, x: real): real {
    if n == 0 then 0.0 else x + Times(n - 1, x)
  }

  lemma {:induction false} TimesIsProduct(n: nat, x: real)
    ensures Times(n, x) == n as real * x
  {
    if n > 0 {
      TimesIsProduct(n - 1, x);
    }
  }

  /** Samples bounded by lo and hi add up to between |xs| * lo and |xs| * hi. */
  lemma {:induction false} SumBounds(xs: seq<real>, lo: real, hi: real)
    requires forall k :: 0 <= k < |xs| ==> lo <= xs[k] <= hi
    ensures Times(|xs|, lo) <= Sum(xs) <= Times(|xs|, hi)
    decreases |xs|
  {
    if xs != [] {
      assert forall k :: 0 <= k < |xs| - 1 ==> xs[1..][k] == xs[k + 1];
      SumBounds(xs[1..], lo, hi);
    }
  }

  /** A total between n * lo and n * hi has its mean between lo and hi. */
  lemma MeanBetween(total: real, n: nat, lo: real, hi: real)
    requires n > 0
    requires Times(n, lo) <= total <= Times(n, hi)
    ensures lo <= total / (n as real) <= hi
  {
    TimesIsProduct(n, lo);
    TimesIsProduct(n, hi);
    var m := n as real;
    assert m * lo <= total <= m * hi;
    assert (total / m) * m == total;
  }

  /** `sum(times) / len(times)` over exact reals. The bound below is a fact about
      reals; with the program's doubles the average can leave [min, max]. */
  function Mean(xs: seq<real>): (m: real)
    requires |xs| > 0
    ensures Min(xs) <= m <= Max(xs)
  {
    SumBounds(xs, Min(xs), Max(xs));
    MeanBetween(Sum(xs), |xs|, Min(xs), Max(xs));
    Sum(xs) / (|xs| as real)
  }

  datatype Latency = Latency(min: real, max: real, avg: real)

  /** The min/max/avg of the samples, all three 0 when there are none. */
  function Summarize(xs: seq<real>): (l: Latency)
    ensures |xs| == 0 ==> l == Latency(0.0, 0.0, 0.0)
    ensures |xs| > 0 ==> l.min in xs && l.max in xs
    ensures |xs| > 0 ==> forall k :: 0 <= k < |xs| ==> l.min <= xs[k] <= l.max
    ensures |xs| > 0 ==> l.min <= l.avg <= l.max
    ensures |xs| > 0 ==> l.avg == Sum(xs) / (|xs| as real)
  {
    if xs == [] then Latency(0.0, 0.0, 0.0) else Latency(Min(xs), Max(xs), Mean(xs))
  }

  /** The dictionary `test_host` returns. */
  datatype HostStats = HostStats(host: string, success: nat, failed: nat, errors: nat, latency: Latency)

  /** The statistics of one host's attempts, defined bucket by bucket. */
  function StatsOf(host: string, outs: seq<Outcome>): (s: HostStats)
    ensures s.host == host
    ensures s.success + s.failed + s.errors <= |outs|
    ensures s.success + s.failed + s.errors == |outs| <==> AllStatusesBucketed(outs)
    ensures |Samples(outs)| == |outs| - s.errors
    ensures |Samples(outs)| == 0 ==> s.latency == Latency(0.0, 0.0, 0.0)
    ensures |Samples(outs)| > 0 ==> s.latency.min <= s.latency.avg <= s.latency.max
  {
    CountPartition(outs);
    SamplesLength(outs);
    UnbucketedNone(outs);
    HostStats(host, Count(outs, Succeeded), Count(outs, Failed), Count(outs, Errored), Summarize(Samples(outs)))
  }

  /** The request loop of `test_host`, one attempt per element of `attempts`. */
  method TestHost(host: string, attempts: seq<Outcome>) returns (stats: HostStats)
    ensures stats == StatsOf(host, attempts)
  {
    var success, failed, errors := 0, 0, 0;
    var times: seq<real> := [];
    for i := 0 to |attempts|
      invariant success == Count(attempts[..i], Succeeded)
      invariant failed == Count(attempts[..i], Failed)
      invariant errors == Count(attempts[..i], Errored)
      invariant times == Samples(attempts[..i])
    {
      var o := attempts[i];
      ghost var done := attempts[..i];
      assert attempts[..i + 1] == done + [o];
      CountAppend(done, o, Succeeded);
      CountAppend(done, o, Failed);
      CountAppend(done, o, Errored);
      SamplesAppend(done, o);
      match o
      case TransportError =>
        errors := errors + 1;
      case Response(status, elapsed) =>
        if 200 <= status < 400 {
          success := success + 1;
        } else if 400 <= status < 600 {
          failed := failed + 1;
        }
        times := times + [elapsed];
    }
    assert attempts[..|attempts|] == attempts;
    stats := HostStats(host, success, failed, errors, Summarize(times));
  }

  /** Attempts that all raise: no success, no failure, one error each, no samples. */
  lemma {:induction false} AllErrorsCounts(outs: seq<Outcome>)
    requires forall k :: 0 <= k < |outs| ==> outs[k].TransportError?
    ensures Count(outs, Succeeded) == 0 && Count(outs, Failed) == 0
    ensures Count(outs, Errored) == |outs|
    ensures Samples(outs) == []
    decreases |outs|
  {
    if outs != [] {
      AllErrorsCounts(outs[1..]);
    }
  }

  /** A host that never answers: every attempt is an error and all latency
      figures are 0. */
  lemma {:induction false} AllErrors(host: string, outs: seq<Outcome>)
    requires forall k :: 0 <= k < |outs| ==> outs[k].TransportError?
    ensures StatsOf(host, outs) == HostStats(host, 0, 0, |outs|, Latency(0.0, 0.0, 0.0))
  {
    AllErrorsCounts(outs);
  }

  /** Three 200 responses with positive timings: three successes and positive,
      ordered latency figures. */
  lemma AllOkExample(host: string, t1: real, t2: real, t3: real)
    requires t1 > 0.0 && t2 > 0.0 && t3 > 0.0
    ensures var s := StatsOf(host, [Response(200, t1), Response(200, t2), Response(200, t3)]);
      && s.success == 3 && s.failed == 0 && s.errors == 0
      && 0.0 < s.latency.min <= s.latency.avg <= s.latency.max
  {
    var outs := [Response(200, t1), Response(200, t2), Response(200, t3)];
    assert outs[1..] == [Response(200, t2), Response(200, t3)];
    var tail2 := [Response(200, t3)];
    assert outs[1..][1..] == tail2;
    assert tail2[1..] == [];
    assert Count(tail2, Succeeded) == 1 && Samples(tail2) == [t3];
    assert Count(outs[1..], Succeeded) == 2 && Samples(outs[1..]) == [t2, t3];
    assert Count(outs, Succeeded) == 3 && Samples(outs) == [t1, t2, t3];
  }
}
