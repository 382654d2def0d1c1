/**
 * The resolution checker (`check_cloudflare` and `check_cloudflare_host`,
 * cloudflare-in-alexa-top500.go:113-122 and 135-144). For each host, in list
 * order, the launcher takes a token and the host task resolves the name, runs
 * the membership test, reports the host with its 1-based rank on a match, and
 * gives the token back. The resolver is a parameter of the model; a printed
 * line is modelled as a `Report`, and reports are collected in launch order.
 */
module Checker {
  import opened Wrappers
  import opened Throttle
  import opened Membership

  /** What `net.LookupIP` yields for a host. */
  datatype Lookup = LookupFailed | Resolved(ips: seq<IP>)

  /** A line `"%3d. %s"`: the host's rank in the list and its name. */
  datatype Report = Report(rank: nat, host: string)

  datatype HostOutcome = Quiet | Reported(line: Report) | HostPanic

  /** The host resolves and the membership test answers true for its addresses. */
  predicate Matches(host: string, nets: seq<Option<Net>>, resolve: string -> Lookup)
  {
    resolve(host).Resolved? && Scan(nets, resolve(host).ips) == Match
  }

  /** How the task for the host at `index` ends. */
  function HostOutcomeOf(index: nat, host: string, nets: seq<Option<Net>>, resolve: string -> Lookup): HostOutcome
  {
    match resolve(host)
    case LookupFailed => Quiet
    case Resolved(ips) =>
      match Scan(nets, ips)
      case Match => Reported(Report(index + 1, host))
      case NoMatch => Quiet
      case NilNet => HostPanic
  }

  /**
   * With every network present, a host is reported, with rank index + 1,
   * exactly when it resolves to some address inside some network; a failed
   * lookup is silent.
   */
  lemma HostOutcomeMeaning(index: nat, host: string, nets: seq<Option<Net>>, resolve: string -> Lookup)
    requires AllPresent(nets)
    ensures HostOutcomeOf(index, host, nets, resolve) != HostPanic
    ensures HostOutcomeOf(index, host, nets, resolve) == Reported(Report(index + 1, host)) <==>
      resolve(host).Resolved? && AnyContains(nets, resolve(host).ips)
    ensures HostOutcomeOf(index, host, nets, resolve).Reported? ==>
      HostOutcomeOf(index, host, nets, resolve) == Reported(Report(index + 1, host))
  {
    if resolve(host).Resolved? {
      ScanIsExists(nets, resolve(host).ips);
    }
  }

  /** `check_cloudflare_host`, run with a token its launcher took; it gives the token back unless it panics. */
  method CheckHost(index: nat, host: string, nets: seq<Option<Net>>, limiter: Limiter, resolve: string -> Lookup)
    returns (outcome: HostOutcome)
    requires limiter.Valid() && limiter.held > 0
    modifies limiter
    ensures limiter.Valid()
    ensures outcome == HostOutcomeOf(index, host, nets, resolve)
    ensures limiter.held == if outcome == HostPanic then old(limiter.held) else old(limiter.held) - 1
  {
    var lookup := resolve(host);
    outcome := Quiet;
    if lookup.Resolved? {
      var verdict := IpsInNets(lookup.ips, nets);
      if verdict == NilNet {
        return HostPanic;
      }
      if verdict == Match {
        outcome := Reported(Report(index + 1, host));
      }
    }
    var released := limiter.Release();
  }

  /** The state a check phase leaves: the lines reported, the tokens held, and how it ended. */
  datatype CheckRun = CheckRun(reports: seq<Report>, held: nat, ending: Ending)

  /** The launcher loop of `check_cloudflare` from host `index` on, with `held` tokens taken. */
  function CheckFrom(hosts: seq<string>, nets: seq<Option<Net>>, resolve: string -> Lookup, index: nat, held: nat): CheckRun
    decreases |hosts| - index
  {
    if index >= |hosts| then CheckRun([], held, Finished)
    else if held >= MaxConcurrency then CheckRun([], held, Deadlocked(index))
    else
      match HostOutcomeOf(index, hosts[index], nets, resolve)
      case HostPanic => CheckRun([], held + 1, Aborted(index))
      case Quiet => CheckFrom(hosts, nets, resolve, index + 1, held)
      case Reported(line) =>
        var rest := CheckFrom(hosts, nets, resolve, index + 1, held);
        rest.(reports := [line] + rest.reports)
  }

  /** `check_cloudflare`: the reports in host order, the tokens left held, and how the loop ended. */
  method CheckCloudflare(hosts: seq<string>, nets: seq<Option<Net>>, limiter: Limiter, resolve: string -> Lookup)
    returns (reports: seq<Report>, ending: Ending)
    requires limiter.Valid()
    modifies limiter
    ensures limiter.Valid()
    ensures reports == CheckFrom(hosts, nets, resolve, 0, old(limiter.held)).reports
    ensures limiter.held == CheckFrom(hosts, nets, resolve, 0, old(limiter.held)).held
    ensures ending == CheckFrom(hosts, nets, resolve, 0, old(limiter.held)).ending
  {
    ghost var whole := CheckFrom(hosts, nets, resolve, 0, limiter.held);
    reports := [];
    var index := 0;
    while index < |hosts|
      invariant index <= |hosts| && limiter.Valid()
      invariant reports + CheckFrom(hosts, nets, resolve, index, limiter.held).reports == whole.reports
      invariant CheckFrom(hosts, nets, resolve, index, limiter.held).held == whole.held
      invariant CheckFrom(hosts, nets, resolve, index, limiter.held).ending == whole.ending
    {
      var admitted := limiter.Acquire();
      if !admitted {
        assert reports == whole.reports;
        return reports, Deadlocked(index);
      }
      var outcome := CheckHost(index, hosts[index], nets, limiter, resolve);
      if outcome == HostPanic {
        assert reports == whole.reports;
        return reports, Aborted(index);
      }
      if outcome.Reported? {
        reports := reports + [outcome.line];
      }
      index := index + 1;
    }
    assert reports == whole.reports;
    ending := Finished;
  }

  /**
   * With every network present, each host task gives back the token it was
   * given: the phase ends with the tokens it started with, and it finishes
   * exactly when it starts below the cap or has no host to check.
   */
  lemma {:induction false} CheckAccounting(hosts: seq<string>, nets: seq<Option<Net>>, resolve: string -> Lookup, index: nat, held: nat)
    requires AllPresent(nets)
    ensures CheckFrom(hosts, nets, resolve, index, held).ending == Finished <==>
      held < MaxConcurrency || index >= |hosts|
    ensures CheckFrom(hosts, nets, resolve, index, held).held == held
    ensures CheckFrom(hosts, nets, resolve, index, held).ending != Finished ==>
      CheckFrom(hosts, nets, resolve, index, held).ending == Deadlocked(index)
    decreases |hosts| - index
  {
    if index < |hosts| && held < MaxConcurrency {
      HostOutcomeMeaning(index, hosts[index], nets, resolve);
      CheckAccounting(hosts, nets, resolve, index + 1, held);
    }
  }

  /**
   * With every network present and a token free, the phase reports exactly the
   * matching hosts from `index` on, each with rank position + 1, in rank order.
   */
  lemma {:induction false} CheckReports(hosts: seq<string>, nets: seq<Option<Net>>, resolve: string -> Lookup, index: nat, held: nat)
    requires AllPresent(nets) && held < MaxConcurrency
    ensures forall line :: line in CheckFrom(hosts, nets, resolve, index, held).reports <==>
      exists i :: index <= i < |hosts| && line == Report(i + 1, hosts[i]) && Matches(hosts[i], nets, resolve)
    ensures forall a, b :: 0 <= a < b < |CheckFrom(hosts, nets, resolve, index, held).reports| ==>
      CheckFrom(hosts, nets, resolve, index, held).reports[a].rank < CheckFrom(hosts, nets, resolve, index, held).reports[b].rank
    ensures forall a :: 0 <= a < |CheckFrom(hosts, nets, resolve, index, held).reports| ==>
      index < CheckFrom(hosts, nets, resolve, index, held).reports[a].rank
    decreases |hosts| - index
  {
    if index < |hosts| {
      var rest := CheckFrom(hosts, nets, resolve, index + 1, held).reports;
      CheckReports(hosts, nets, resolve, index + 1, held);
      var host := hosts[index];
      HostOutcomeMeaning(index, host, nets, resolve);
      if resolve(host).Resolved? {
        ScanIsExists(nets, resolve(host).ips);
      }
      var here := Report(index + 1, host);
      assert HostOutcomeOf(index, host, nets, resolve) == Reported(here) <==> Matches(host, nets, resolve);
      var reports := CheckFrom(hosts, nets, resolve, index, held).reports;
      assert reports == if Matches(host, nets, resolve) then [here] + rest else rest;
      forall line
        ensures line in reports <==>
          exists i :: index <= i < |hosts| && line == Report(i + 1, hosts[i]) && Matches(hosts[i], nets, resolve)
      {
        if exists i :: index <= i < |hosts| && line == Report(i + 1, hosts[i]) && Matches(hosts[i], nets, resolve) {
          var i :| index <= i < |hosts| && line == Report(i + 1, hosts[i]) && Matches(hosts[i], nets, resolve);
          if i > index {
            assert line in rest;
          }
        }
      }
    }
  }
}
