/**
 * One page of the ranked list (`alexatop500_page`, cloudflare-in-alexa-top500.go:47-74):
 * the URL it is fetched from, the slots of the shared 500-entry `sites` array
 * it writes, and the token it gives back.
 */
module Pages {
  import opened Sites
  import opened Throttle

  const BaseUrl: string := "http://www.alexa.com/topsites"
  const PagePath: string := "/global;"
  /** Sites per page, hard-wired as the factor in `25*page + index`. */
  const PageSize: nat := 25
  /** Pages fetched, `max_page`. */
  const MaxPage: nat := 20
  /** Length of the `sites` array, `make([]string, 500)`. */
  const SlotCount: nat := 500

  /** What `get_http` yields for a URL: a network error, or a body that parses to a document. */
  datatype Response = NetworkError | Body(doc: Document)

  /** How a page task ends: it released its token, it returned an error, or it panicked. */
  datatype PageOutcome = Done | Failed | Panicked

  // ---------------------------------------------------------------------------
  // Page URL: base URL for page 0, base + "/global;" + decimal page otherwise
  // ---------------------------------------------------------------------------

  function DigitChar(d: nat): char
    requires d < 10
  {
    ('0' as int + d) as char
  }

  function DigitValue(c: char): nat
  {
    if '0' <= c <= '9' then c as int - '0' as int else 0
  }

  predicate IsDigits(s: string)
  {
    forall i :: 0 <= i < |s| ==> '0' <= s[i] <= '9'
  }

  /** `%d` of a non-negative int: decimal digits without leading zero. */
  function Decimal(n: nat): (s: string)
    ensures 1 <= |s| && IsDigits(s)
    ensures n > 0 ==> s[0] != '0'
    decreases n
  {
    if n < 10 then [DigitChar(n)] else Decimal(n / 10) + [DigitChar(n % 10)]
  }

  /** The number a string of decimal digits denotes. */
  function DecimalValue(s: string): nat
  {
    if s == [] then 0 else DecimalValue(s[..|s| - 1]) * 10 + DigitValue(s[|s| - 1])
  }

  lemma {:induction false} DecimalRoundTrip(n: nat)
    ensures DecimalValue(Decimal(n)) == n
    decreases n
  {
    if n >= 10 {
      var d := Decimal(n / 10);
      assert (d + [DigitChar(n % 10)])[..|d|] == d;
      DecimalRoundTrip(n / 10);
    }
  }

  function PageUrl(page: nat): string
  {
    if page > 0 then BaseUrl + PagePath + Decimal(page) else BaseUrl
  }

  /** Reads the page number back from a page URL. */
  function PageOfUrl(url: string): nat
  {
    var prefix := BaseUrl + PagePath;
    if |prefix| < |url| && url[..|prefix|] == prefix then DecimalValue(url[|prefix|..]) else 0
  }

  /** Every page's URL names its page: the URL choice loses nothing. */
  lemma PageUrlRoundTrip(page: nat)
    ensures PageOfUrl(PageUrl(page)) == page
  {
    if page > 0 {
      var prefix := BaseUrl + PagePath;
      var url := prefix + Decimal(page);
      assert url[..|prefix|] == prefix;
      assert url[|prefix|..] == Decimal(page);
      DecimalRoundTrip(page);
    }
  }

  /** Distinct pages are fetched from distinct URLs; page 0 alone uses the bare base URL. */
  lemma PageUrlsDistinct(p1: nat, p2: nat)
    ensures PageUrl(p1) == PageUrl(p2) <==> p1 == p2
    ensures PageUrl(p1) == BaseUrl <==> p1 == 0
  {
    PageUrlRoundTrip(p1);
    PageUrlRoundTrip(p2);
    if p1 > 0 {
      assert |PageUrl(p1)| > |BaseUrl|;
    }
  }

  // ---------------------------------------------------------------------------
  // Slots: site `index` of page `page` goes to `sites[25*page + index]`
  // ---------------------------------------------------------------------------

  function Slot(page: nat, index: nat): nat
  {
    PageSize * page + index
  }

  /** The slots a page writes when it yields `count` sites. */
  function PageSlots(page: nat, count: nat): set<nat>
  {
    set i: nat | i < count :: Slot(page, i)
  }

  /** Pages of at most 25 sites write pairwise disjoint slot ranges, all inside the array. */
  lemma PageSlotsDisjoint(p1: nat, n1: nat, p2: nat, n2: nat)
    requires p1 != p2 && n1 <= PageSize && n2 <= PageSize
    ensures PageSlots(p1, n1) !! PageSlots(p2, n2)
  {
    forall i: nat, j: nat | i < n1 && j < n2
      ensures Slot(p1, i) != Slot(p2, j)
    {
      if p1 < p2 {
        assert Slot(p1, i) < Slot(p1 + 1, 0) <= Slot(p2, j);
      } else {
        assert Slot(p2, j) < Slot(p2 + 1, 0) <= Slot(p1, i);
      }
    }
  }

  lemma PageSlotsInBounds(page: nat, count: nat)
    requires page < MaxPage && count <= PageSize
    ensures forall s :: s in PageSlots(page, count) ==> s < SlotCount
  {
  }

  /** A page with more than 25 sites writes into the first slot of the next page. */
  lemma OverfullPageOverlapsNext(page: nat, count: nat, nextCount: nat)
    requires count > PageSize && nextCount > 0
    ensures Slot(page + 1, 0) in PageSlots(page, count) * PageSlots(page + 1, nextCount)
  {
    assert Slot(page, PageSize) == Slot(page + 1, 0);
  }

  /** On the last page, a 26th site would go past the end of the array. */
  lemma OverfullLastPageOutOfBounds(count: nat)
    requires count > PageSize
    ensures Slot(MaxPage - 1, PageSize) in PageSlots(MaxPage - 1, count)
    ensures Slot(MaxPage - 1, PageSize) == SlotCount
  {
  }

  /** `slots` after writing `xs[i]` to position `start + i` for every `i` that lands inside it. */
  function Placed(slots: seq<string>, start: nat, xs: seq<string>): (r: seq<string>)
    ensures |r| == |slots|
  {
    seq(|slots|, i requires 0 <= i < |slots| => if start <= i < start + |xs| then xs[i - start] else slots[i])
  }

  /**
   * The write loop (cloudflare-in-alexa-top500.go:65-68). Go checks every index:
   * the first write past the end panics, after the earlier writes took effect.
   */
  method WriteSlots(sites: array<string>, page: nat, exSites: seq<string>) returns (inBounds: bool)
    modifies sites
    ensures inBounds <==> exSites == [] || Slot(page, |exSites|) <= sites.Length
    ensures sites[..] == Placed(old(sites[..]), Slot(page, 0), exSites)
    ensures inBounds ==> forall i :: 0 <= i < |exSites| ==> sites[Slot(page, i)] == exSites[i]
    ensures forall k :: 0 <= k < sites.Length && (k < Slot(page, 0) || Slot(page, |exSites|) <= k) ==>
      sites[k] == old(sites[k])
  {
    var index := 0;
    while index < |exSites|
      invariant index <= |exSites|
      invariant index == 0 || Slot(page, index) <= sites.Length
      invariant sites[..] == Placed(old(sites[..]), Slot(page, 0), exSites[..index])
    {
      var i := Slot(page, index);
      if i >= sites.Length {
        assert sites[..] == Placed(old(sites[..]), Slot(page, 0), exSites);
        return false;
      }
      sites[i] := exSites[index];
      index := index + 1;
    }
    assert exSites[..index] == exSites;
    inBounds := true;
  }

  // ---------------------------------------------------------------------------
  // The page task
  // ---------------------------------------------------------------------------

  /** The sites a page contributes: none when the fetch failed. */
  function PageSites(resp: Response): seq<string>
  {
    if resp.NetworkError? then [] else SitesOf(resp.doc)
  }

  /**
   * How the task for `page` ends, given the response and the array length:
   * a fetch or parse error is an error return, a write past the end a panic.
   */
  function PageOutcomeOf(page: nat, resp: Response, width: nat): PageOutcome
  {
    if resp.NetworkError? then Failed
    else if PageSites(resp) != [] && width < Slot(page, |PageSites(resp)|) then Panicked
    else if resp.doc.Malformed? then Failed
    else Done
  }

  /**
   * `alexatop500_page`, run with a token its launcher took. The token goes back
   * only on the path that reaches `<-throttle` (line 72); both error returns
   * (lines 60 and 70) keep it.
   */
  method PageTask(page: nat, sites: array<string>, limiter: Limiter, web: string -> Response)
    returns (outcome: PageOutcome)
    requires limiter.Valid() && limiter.held > 0
    modifies sites, limiter
    ensures limiter.Valid()
    ensures outcome == PageOutcomeOf(page, web(PageUrl(page)), sites.Length)
    ensures sites[..] == Placed(old(sites[..]), Slot(page, 0), PageSites(web(PageUrl(page))))
    ensures limiter.held == if outcome == Done then old(limiter.held) - 1 else old(limiter.held)
  {
    var url := PageUrl(page);
    var resp := web(url);
    if resp.NetworkError? {
      assert sites[..] == Placed(sites[..], Slot(page, 0), []);
      return Failed;
    }
    var exSites, malformed := ExtractSites(resp.doc);
    var inBounds := WriteSlots(sites, page, exSites);
    if !inBounds {
      return Panicked;
    }
    if malformed {
      return Failed;
    }
    var released := limiter.Release();
    outcome := Done;
  }
}
