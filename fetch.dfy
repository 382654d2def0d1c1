/**
 * The fetch phase (`alexatop500`, cloudflare-in-alexa-top500.go:77-88): allocate
 * 500 empty slots, then for each of the 20 pages take a token and launch the
 * page task. The model runs each task to completion right after its launch.
 * A failed task keeps its token for good in every schedule, so the number of
 * tokens held when the launcher reaches page p is, in this schedule, the
 * least it can be in any schedule, and (assuming every fetch returns) the
 * phase blocks in this schedule exactly when it blocks for good in all of them.
 */
module Fetch {
  import opened Throttle
  import opened Pages

  /** The state a fetch phase leaves: the slots, the tokens still held, and how it ended. */
  datatype FetchRun = FetchRun(slots: seq<string>, held: nat, ending: Ending)

  function Blank(): (slots: seq<string>)
    ensures |slots| == SlotCount
  {
    seq(SlotCount, _ => "")
  }

  /** The response page `page` receives from the web. */
  function ResponseAt(web: string -> Response, page: nat): Response
  {
    web(PageUrl(page))
  }

  function OutcomeAt(web: string -> Response, page: nat): PageOutcome
  {
    PageOutcomeOf(page, ResponseAt(web, page), SlotCount)
  }

  function SitesAt(web: string -> Response, page: nat): seq<string>
  {
    PageSites(ResponseAt(web, page))
  }

  /** The launcher loop from page `page` on, with `held` tokens taken. */
  function RunPages(web: string -> Response, page: nat, slots: seq<string>, held: nat): FetchRun
    decreases MaxPage as int - page
  {
    if page >= MaxPage then FetchRun(slots, held, Finished)
    else if held >= MaxConcurrency then FetchRun(slots, held, Deadlocked(page))
    else
      var slots' := Placed(slots, Slot(page, 0), SitesAt(web, page));
      match PageOutcomeOf(page, ResponseAt(web, page), |slots|)
      case Panicked => FetchRun(slots', held + 1, Aborted(page))
      case Failed => RunPages(web, page + 1, slots', held + 1)
      case Done => RunPages(web, page + 1, slots', held)
  }

  function FetchPhase(web: string -> Response, held: nat): FetchRun
  {
    RunPages(web, 0, Blank(), held)
  }

  /** `alexatop500`: the array it returns, the tokens left held, and how the loop ended. */
  method Alexatop500(web: string -> Response, limiter: Limiter) returns (sites: array<string>, ending: Ending)
    requires limiter.Valid()
    modifies limiter
    ensures fresh(sites) && limiter.Valid()
    ensures sites[..] == FetchPhase(web, old(limiter.held)).slots
    ensures limiter.held == FetchPhase(web, old(limiter.held)).held
    ensures ending == FetchPhase(web, old(limiter.held)).ending
  {
    sites := new string[SlotCount](_ => "");
    assert sites[..] == Blank();
    var page := 0;
    while page < MaxPage
      invariant page <= MaxPage && limiter.Valid() && sites.Length == SlotCount
      invariant RunPages(web, page, sites[..], limiter.held) == FetchPhase(web, old(limiter.held))
    {
      ghost var before, held := sites[..], limiter.held;
      var admitted := limiter.Acquire();
      if !admitted {
        return sites, Deadlocked(page);
      }
      var outcome := PageTask(page, sites, limiter, web);
      if outcome == Panicked {
        assert RunPages(web, page, before, held).ending == Aborted(page);
        return sites, Aborted(page);
      }
      assert RunPages(web, page + 1, sites[..], limiter.held) == RunPages(web, page, before, held);
      page := page + 1;
    }
    ending := Finished;
  }

  // ---------------------------------------------------------------------------
  // Token accounting
  // ---------------------------------------------------------------------------

  /** How many of the pages in [lo, hi) return an error. */
  function FailuresBetween(web: string -> Response, lo: nat, hi: nat): nat
    decreases hi as int - lo
  {
    if lo >= hi then 0
    else (if OutcomeAt(web, lo) == Failed then 1 else 0) + FailuresBetween(web, lo + 1, hi)
  }

  ghost predicate NoPanics(web: string -> Response)
  {
    forall page: nat :: page < MaxPage ==> OutcomeAt(web, page) != Panicked
  }

  lemma {:induction false} FailuresMonotone(web: string -> Response, lo: nat, hi: nat, hi': nat)
    requires hi <= hi'
    ensures FailuresBetween(web, lo, hi) <= FailuresBetween(web, lo, hi')
    decreases hi as int - lo
  {
    if lo < hi {
      FailuresMonotone(web, lo + 1, hi, hi');
    }
  }

  /** No acquire from page `page` on finds the buffer full, given `held` tokens taken before it. */
  ghost predicate AllAdmitted(web: string -> Response, page: nat, held: nat)
  {
    forall q :: page <= q < MaxPage ==> held + FailuresBetween(web, page, q) < MaxConcurrency
  }

  /**
   * Without panics, the launcher from `page` on gets through exactly when no
   * acquire finds the buffer full, and then it holds one extra token for every
   * page that failed.
   */
  lemma {:induction false} RunPagesAccounting(web: string -> Response, page: nat, slots: seq<string>, held: nat)
    requires page <= MaxPage && |slots| == SlotCount && NoPanics(web)
    ensures RunPages(web, page, slots, held).ending == Finished <==> AllAdmitted(web, page, held)
    ensures RunPages(web, page, slots, held).ending == Finished ==>
      RunPages(web, page, slots, held).held == held + FailuresBetween(web, page, MaxPage)
    ensures RunPages(web, page, slots, held).ending != Finished ==>
      RunPages(web, page, slots, held).ending.Deadlocked?
    decreases MaxPage as int - page
  {
    assert FailuresBetween(web, page, page) == 0;
    if page < MaxPage && held < MaxConcurrency {
      var slots' := Placed(slots, Slot(page, 0), SitesAt(web, page));
      var failed := if OutcomeAt(web, page) == Failed then 1 else 0;
      var next, held' := page + 1, held + failed;
      assert OutcomeAt(web, page) != Panicked;
      assert RunPages(web, page, slots, held) == RunPages(web, next, slots', held');
      RunPagesAccounting(web, next, slots', held');
      forall q | page < q <= MaxPage
        ensures FailuresBetween(web, page, q) == failed + FailuresBetween(web, next, q)
      {
      }
      if AllAdmitted(web, next, held') {
        forall q | page <= q < MaxPage
          ensures held + FailuresBetween(web, page, q) < MaxConcurrency
        {
          if q > page {
            assert held' + FailuresBetween(web, next, q) < MaxConcurrency;
          }
        }
      }
      if AllAdmitted(web, page, held) {
        forall q | next <= q < MaxPage
          ensures held' + FailuresBetween(web, next, q) < MaxConcurrency
        {
          assert held + FailuresBetween(web, page, q) < MaxConcurrency;
        }
      }
    }
  }

  /**
   * From the program's start (no token held): the fetch phase completes exactly
   * when fewer than four of the first 19 pages fail, it otherwise blocks for
   * good, and when it completes every failed page still holds its token.
   */
  lemma FetchPhaseAccounting(web: string -> Response)
    requires NoPanics(web)
    ensures FetchPhase(web, 0).ending == Finished <==> FailuresBetween(web, 0, MaxPage - 1) < MaxConcurrency
    ensures FetchPhase(web, 0).ending == Finished ==> FetchPhase(web, 0).held == FailuresBetween(web, 0, MaxPage)
    ensures FetchPhase(web, 0).ending != Finished ==> FetchPhase(web, 0).ending.Deadlocked?
  {
    RunPagesAccounting(web, 0, Blank(), 0);
    if FailuresBetween(web, 0, MaxPage - 1) < MaxConcurrency {
      forall q | 0 <= q < MaxPage
        ensures FailuresBetween(web, 0, q) < MaxConcurrency
      {
        FailuresMonotone(web, 0, q, MaxPage - 1);
      }
    }
  }

  // ---------------------------------------------------------------------------
  // Slot contents
  // ---------------------------------------------------------------------------

  /** Every page yields at most 25 sites. */
  ghost predicate PagesFit(web: string -> Response)
  {
    forall page: nat :: page < MaxPage ==> |SitesAt(web, page)| <= PageSize
  }

  /** Pages below `done` have their sites in their own slots, padded with "", later pages' slots are "". */
  ghost predicate HoldsPages(web: string -> Response, slots: seq<string>, done: nat)
  {
    |slots| == SlotCount &&
    forall page: nat, i: nat :: page < MaxPage && i < PageSize ==>
      Slot(page, i) < |slots| &&
      slots[Slot(page, i)] == if page < done && i < |SitesAt(web, page)| then SitesAt(web, page)[i] else ""
  }

  lemma PagesFitNoPanics(web: string -> Response)
    requires PagesFit(web)
    ensures NoPanics(web)
  {
    forall page: nat | page < MaxPage
      ensures OutcomeAt(web, page) != Panicked
    {
      assert |SitesAt(web, page)| <= PageSize;
    }
  }

  lemma PlacePage(web: string -> Response, slots: seq<string>, page: nat)
    requires page < MaxPage && PagesFit(web) && HoldsPages(web, slots, page)
    ensures HoldsPages(web, Placed(slots, Slot(page, 0), SitesAt(web, page)), page + 1)
  {
    var xs := SitesAt(web, page);
    assert |xs| <= PageSize;
    var slots' := Placed(slots, Slot(page, 0), xs);
    forall p: nat, i: nat | p < MaxPage && i < PageSize
      ensures slots'[Slot(p, i)] == if p < page + 1 && i < |SitesAt(web, p)| then SitesAt(web, p)[i] else ""
    {
      if p != page {
        assert Slot(p, i) < Slot(page, 0) || Slot(page, PageSize) <= Slot(p, i) by {
          if p < page {
            assert Slot(p, i) < Slot(p + 1, 0) <= Slot(page, 0);
          } else {
            assert Slot(page + 1, 0) <= Slot(p, i);
          }
        }
      }
    }
  }

  lemma {:induction false} RunPagesContent(web: string -> Response, page: nat, slots: seq<string>, held: nat)
    requires page <= MaxPage && PagesFit(web) && HoldsPages(web, slots, page)
    ensures RunPages(web, page, slots, held).ending == Finished ==>
      HoldsPages(web, RunPages(web, page, slots, held).slots, MaxPage)
    decreases MaxPage as int - page
  {
    if page < MaxPage && held < MaxConcurrency {
      PlacePage(web, slots, page);
      var slots' := Placed(slots, Slot(page, 0), SitesAt(web, page));
      RunPagesContent(web, page + 1, slots', held);
      RunPagesContent(web, page + 1, slots', held + 1);
    }
  }

  /**
   * When every page yields at most 25 sites and the phase completes, site i of
   * page p sits at index 25*p + i and every other slot is still "".
   */
  lemma FetchPhaseContent(web: string -> Response, held: nat)
    requires PagesFit(web)
    ensures FetchPhase(web, held).ending == Finished ==> HoldsPages(web, FetchPhase(web, held).slots, MaxPage)
  {
    RunPagesContent(web, 0, Blank(), held);
  }

  // ---------------------------------------------------------------------------
  // The leak, and the evidently intended release on every path
  // ---------------------------------------------------------------------------

  /** A web that cannot be reached: every page fetch fails. */
  function Unreachable(): string -> Response
  {
    _ => NetworkError
  }

  /** As written: with the web down, the first four pages keep their tokens and page 4 is never launched. */
  lemma LeakDeadlocksWhenWebDown()
    ensures FetchPhase(Unreachable(), 0).ending == Deadlocked(4)
  {
    var web := Unreachable();
    var s1 := Placed(Blank(), Slot(0, 0), []);
    var s2 := Placed(s1, Slot(1, 0), []);
    var s3 := Placed(s2, Slot(2, 0), []);
    var s4 := Placed(s3, Slot(3, 0), []);
    assert RunPages(web, 0, Blank(), 0) == RunPages(web, 1, s1, 1);
    assert RunPages(web, 1, s1, 1) == RunPages(web, 2, s2, 2);
    assert RunPages(web, 2, s2, 2) == RunPages(web, 3, s3, 3);
    assert RunPages(web, 3, s3, 3) == RunPages(web, 4, s4, 4);
  }

  /** The launcher loop with the token given back on every path that does not panic. */
  function RunPagesReleasing(web: string -> Response, page: nat, slots: seq<string>, held: nat): FetchRun
    decreases MaxPage as int - page
  {
    if page >= MaxPage then FetchRun(slots, held, Finished)
    else if held >= MaxConcurrency then FetchRun(slots, held, Deadlocked(page))
    else
      var slots' := Placed(slots, Slot(page, 0), SitesAt(web, page));
      match PageOutcomeOf(page, ResponseAt(web, page), |slots|)
      case Panicked => FetchRun(slots', held + 1, Aborted(page))
      case _ => RunPagesReleasing(web, page + 1, slots', held)
  }

  /**
   * Releasing on every path changes only the token count: whenever the loop as
   * written completes, the releasing loop leaves exactly the same slots.
   */
  lemma {:induction false} ReleasingKeepsSlots(web: string -> Response, page: nat, slots: seq<string>, held: nat, held': nat)
    requires held' <= held
    ensures RunPages(web, page, slots, held).ending == Finished ==>
      RunPagesReleasing(web, page, slots, held').slots == RunPages(web, page, slots, held).slots
    decreases MaxPage as int - page
  {
    if page < MaxPage && held < MaxConcurrency {
      var slots' := Placed(slots, Slot(page, 0), SitesAt(web, page));
      ReleasingKeepsSlots(web, page + 1, slots', held + 1, held');
      ReleasingKeepsSlots(web, page + 1, slots', held, held');
    }
  }

  /** Releasing on every path, the phase never blocks and gives back every token it took. */
  lemma {:induction false} ReleasingNeverLeaks(web: string -> Response, page: nat, slots: seq<string>, held: nat)
    requires page <= MaxPage && |slots| == SlotCount && NoPanics(web) && held < MaxConcurrency
    ensures RunPagesReleasing(web, page, slots, held).ending == Finished
    ensures RunPagesReleasing(web, page, slots, held).held == held
    decreases MaxPage as int - page
  {
    if page < MaxPage {
      assert OutcomeAt(web, page) != Panicked;
      ReleasingNeverLeaks(web, page + 1, Placed(slots, Slot(page, 0), SitesAt(web, page)), held);
    }
  }
}
