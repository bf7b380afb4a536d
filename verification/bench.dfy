/** `main` of bench.py without argument parsing, printing and file output: the
    count check, host resolution, and one `test_host` run per valid host. */
module Bench {
  import opened Wrappers
  import opened Validation
  import opened Hosts
  import opened Probe

  /** The parsed command line: where the hosts come from and `--count`. */
  datatype Config = Config(source: HostSource, count: int)

  /** The network and the clock together: the outcome of attempt `j` against
      the `k`-th probed host. */
  type Network = (nat, nat) -> Outcome

  /** The three ways `main` ends in `sys.exit(1)`. */
  datatype RunError = NonPositiveCount | HostsError(error: HostError)

  datatype RunResult = Aborted(reason: RunError) | Report(results: seq<HostStats>)

  /** The `count` attempts made against the `k`-th host, in order. */
  function Attempts(network: Network, k: nat, count: nat): seq<Outcome> {
    seq(count, j requires 0 <= j < count => network(k, j))
  }

  /** A non-positive count aborts before the hosts are resolved or any request is
      made, so the source and the network play no part; otherwise the host list
      is resolved, and each valid host, in order, gets one report entry computed
      from its `count` attempts. */
  method Run(config: Config, network: Network) returns (r: RunResult)
    ensures config.count <= 0 ==> r == Aborted(NonPositiveCount)
    ensures config.count > 0 && GetHosts(config.source).Failure? ==>
              r == Aborted(HostsError(GetHosts(config.source).error))
    ensures config.count > 0 ==> (r.Report? <==> GetHosts(config.source).Success?)
    ensures r.Report? ==>
              && config.count > 0
              && GetHosts(config.source).Success?
              && |r.results| == |GetHosts(config.source).value| > 0
              && forall k :: 0 <= k < |r.results| ==>
                   r.results[k] == StatsOf(GetHosts(config.source).value[k], Attempts(network, k, config.count))
    ensures r.Report? ==> forall k :: 0 <= k < |r.results| ==>
              ValidateHost(r.results[k].host) && r.results[k].success + r.results[k].failed + r.results[k].errors <= config.count
  {
    if config.count <= 0 {
      return Aborted(NonPositiveCount);
    }
    var resolved := GetHosts(config.source);
    if resolved.Failure? {
      return Aborted(HostsError(resolved.error));
    }
    var hosts := resolved.value;
    var results: seq<HostStats> := [];
    for k := 0 to |hosts|
      invariant |results| == k
      invariant forall m :: 0 <= m < k ==> results[m] == StatsOf(hosts[m], Attempts(network, m, config.count))
    {
      var stats := TestHost(hosts[k], Attempts(network, k, config.count));
      results := results + [stats];
    }
    r := Report(results);
  }
}
