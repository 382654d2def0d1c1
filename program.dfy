/**
 * The program (`main`, cloudflare-in-alexa-top500.go:146-156): fetch the ranked
 * list, load the address ranges, check every listed host, all against the one
 * global limiter. The web, the two range bodies, the CIDR parser and the
 * resolver are the inputs of a run.
 */
module Program {
  import opened Wrappers
  import opened Throttle
  import opened Pages
  import opened Fetch
  import opened Membership
  import opened Ranges
  import opened Checker

  /**
   * How the process ends: `main` returns; `main` never returns because the
   * launcher blocks for good (Go's deadlock detector may then abort the
   * process, which is not modelled); or a goroutine panics.
   */
  datatype Exit = Completed | NeverReturns | Crashed

  datatype ProgramRun = ProgramRun(reports: seq<Report>, exit: Exit)

  function ExitOf(ending: Ending): Exit
  {
    match ending
    case Finished => Completed
    case Deadlocked(_) => NeverReturns
    case Aborted(_) => Crashed
  }

  /** The run of `main`, phase after phase. */
  function RunOf(web: string -> Response, v4: Option<string>, v6: Option<string>,
                 parse: string -> Option<Net>, resolve: string -> Lookup): ProgramRun
  {
    var fetch := FetchPhase(web, 0);
    if fetch.ending != Finished then ProgramRun([], ExitOf(fetch.ending))
    else if v4.None? || v6.None? then ProgramRun([], Crashed)
    else
      var check := CheckFrom(fetch.slots, Entries(Combine(v4.value, v6.value), parse), resolve, 0, fetch.held);
      ProgramRun(check.reports, ExitOf(check.ending))
  }

  /** `main`, with the global `throttle` created empty at program start. */
  method Run(web: string -> Response, v4: Option<string>, v6: Option<string>,
             parse: string -> Option<Net>, resolve: string -> Lookup)
    returns (reports: seq<Report>, exit: Exit)
    ensures ProgramRun(reports, exit) == RunOf(web, v4, v6, parse, resolve)
  {
    var limiter := new Limiter();
    var sites, fetchEnding := Alexatop500(web, limiter);
    if fetchEnding != Finished {
      return [], ExitOf(fetchEnding);
    }
    var load := CloudflareIps(v4, v6, parse);
    if load.ReadPanic? {
      return [], Crashed;
    }
    var checkEnding;
    reports, checkEnding := CheckCloudflare(sites[..], load.nets, limiter, resolve);
    exit := ExitOf(checkEnding);
  }

  /**
   * When no page overflows its 25 slots, both range bodies arrive and every
   * piece parses, the program never panics, and it returns exactly when fewer
   * than four of the 20 pages fail; with four or more `main` never returns.
   */
  lemma ProgramCompletesIffFewFailures(web: string -> Response, v4: Option<string>, v6: Option<string>,
                                       parse: string -> Option<Net>, resolve: string -> Lookup)
    requires PagesFit(web) && v4.Some? && v6.Some?
    requires AllPresent(Entries(Combine(v4.value, v6.value), parse))
    ensures RunOf(web, v4, v6, parse, resolve).exit != Crashed
    ensures RunOf(web, v4, v6, parse, resolve).exit == Completed <==>
      FailuresBetween(web, 0, MaxPage) < MaxConcurrency
  {
    var nets := Entries(Combine(v4.value, v6.value), parse);
    PagesFitNoPanics(web);
    FetchPhaseAccounting(web);
    FetchPhaseContent(web, 0);
    FailuresMonotone(web, 0, MaxPage - 1, MaxPage);
    var fetch := FetchPhase(web, 0);
    if fetch.ending == Finished {
      CheckAccounting(fetch.slots, nets, resolve, 0, fetch.held);
    }
  }

  /**
   * When the program returns (under the same conditions), it has reported
   * exactly the entries of the assembled list that resolve into a network,
   * each with its position + 1 as rank; site i of page p sits at position
   * 25*p + i.
   */
  lemma ProgramReportsMatches(web: string -> Response, v4: Option<string>, v6: Option<string>,
                              parse: string -> Option<Net>, resolve: string -> Lookup)
    requires PagesFit(web) && v4.Some? && v6.Some?
    requires AllPresent(Entries(Combine(v4.value, v6.value), parse))
    requires RunOf(web, v4, v6, parse, resolve).exit == Completed
    ensures HoldsPages(web, FetchPhase(web, 0).slots, MaxPage)
    ensures forall line :: line in RunOf(web, v4, v6, parse, resolve).reports <==>
      exists i :: 0 <= i < |FetchPhase(web, 0).slots| && line == Report(i + 1, FetchPhase(web, 0).slots[i]) &&
        Matches(FetchPhase(web, 0).slots[i], Entries(Combine(v4.value, v6.value), parse), resolve)
  {
    var nets := Entries(Combine(v4.value, v6.value), parse);
    var fetch := FetchPhase(web, 0);
    PagesFitNoPanics(web);
    FetchPhaseAccounting(web);
    FetchPhaseContent(web, 0);
    CheckAccounting(fetch.slots, nets, resolve, 0, fetch.held);
    CheckReports(fetch.slots, nets, resolve, 0, fetch.held);
  }
}
