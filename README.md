# cloudflare-in-alexa-top500, modelled in Dafny

The program answers one question: which of the 500 top-ranked sites of the
Alexa list resolve to addresses inside Cloudflare's published IP ranges. It
scrapes the 20 list pages into a shared 500-slot array (25 sites per page),
loads the provider's IPv4 and IPv6 range lists, then resolves every listed
host and prints the hosts that fall inside a range, labelled with their rank.
Page fetches and host checks are fanned out as goroutines, and a buffered
channel of capacity 4 (`throttle`) admits at most four of them at a time.

This project models the sequential logic under that plumbing, one module per
component:

- `Throttle`: the `throttle` channel as a token counter (`Limiter`), with the
  invariant that at most 4 tokens are held.
- `Sites`: `extract_sites`, where each link text becomes `ToLower("www." + text)`.
- `Pages`: the page URL, the `25*page + index` slot arithmetic, the in-place
  write loop over the `sites` array, and the page task with its token release.
- `Fetch`: `alexatop500`, which allocates the array and launches the 20 page
  tasks. This module holds the token accounting and the slot-content theorems.
- `Membership`: `ips_in_nets`, the nested search with early return.
- `Ranges`: `cloudflare_ips`, which joins the two bodies, splits them on newlines,
  and adds one entry per piece.
- `Checker`: `check_cloudflare` and `check_cloudflare_host`, covering reports,
  ranks and token release.
- `Program`: `main`, the phases composed.

The model runs the goroutines one at a time: each task runs to completion as
soon as it is launched. This assumes every fetch and lookup returns (the source
sets no time-out; see "## Left out"). Under that assumption, a page task that
fails keeps its token for good in every schedule. So the launcher blocks for
good in some schedule exactly when it blocks in this one, and the number of tokens still held afterwards is the same
in every schedule. A channel operation that would block is reported as a
`Deadlocked` ending instead of being performed. A Go panic (an index out of
range, a nil dereference) ends the whole process and is modelled as `Aborted`
or `Crashed`.

## Where the code departs from its evident intent

In each case below the model follows the code.

- Evidently intended: every page task gives its token back whatever happens.
  In the code, the error returns at lines 60 and 70 skip the `<-throttle` at
  line 72. So failed pages keep their tokens, and after four failures `main`
  never returns: the launcher blocks for good, and Go's deadlock detector may
  then abort the process (see Findings).
- Evidently intended: range lines that fail to parse are skipped. In the code
  (lines 105-107), each such line stays in the list as a nil `*IPNet`.
  `Contains` on that nil network panics (see Findings).
- Evidently intended: a failed range fetch is swallowed (its error is discarded with `_`). In the code, `get_http`
  then returns a nil reader, and `ioutil.ReadAll` on a nil reader panics
  (lines 96-97 and 100-101). `Ranges.CloudflareIps` models this as `ReadPanic`.
- Sites are lower-cased after "www." is prepended (line 40), so the prefix
  itself goes through `ToLower`.
- The token is taken by the launcher loop (lines 82 and 117) before the
  goroutine starts, not by the task itself.

## Model

| member | source | states |
|---|---|---|
| `Throttle.Limiter.constructor` | cloudflare-in-alexa-top500.go:14-15 | the channel starts empty: no token held, within the capacity of 4 |
| `Throttle.Limiter.Acquire` | cloudflare-in-alexa-top500.go:82 | a send succeeds exactly when fewer than 4 tokens are held; it then holds one more, otherwise nothing changes; never more than 4 |
| `Throttle.Limiter.Release` | cloudflare-in-alexa-top500.go:72 | a receive succeeds exactly when a token is held and then holds one fewer; the bound of 4 is kept |
| `Sites.LowerIdempotent` | cloudflare-in-alexa-top500.go:40 | ASCII lower-casing leaves no upper-case letter and applying it twice equals applying it once |
| `Sites.NormalizeShape` | cloudflare-in-alexa-top500.go:40 | a site is "www." followed by the lower-cased link text: 4 characters longer, prefix "www.", all lower case |
| `Sites.NormalizeStable` | cloudflare-in-alexa-top500.go:40 | re-normalising a site's case changes nothing |
| `Sites.NormalizeSameSite` | cloudflare-in-alexa-top500.go:40 | two link texts give the same site if and only if they agree up to ASCII case |
| `Sites.SitesOfShape` | cloudflare-in-alexa-top500.go:31-43 | a malformed page yields no sites; otherwise one site per link, each starting with "www." and lower case |
| `Sites.ExtractSites` | cloudflare-in-alexa-top500.go:28-44 | on a parse error: the error and an empty list; otherwise no error and site i equals `ToLower("www." + link i)` for every link, in order |
| `Pages.Decimal` | cloudflare-in-alexa-top500.go:54 | `%d` of a non-negative number is a non-empty digit string with no leading zero (unless the number is 0) |
| `Pages.DecimalRoundTrip` | cloudflare-in-alexa-top500.go:54 | reading the decimal text back gives the number |
| `Pages.PageUrlRoundTrip` | cloudflare-in-alexa-top500.go:51-55 | the page number can be read back from every page URL |
| `Pages.PageUrlsDistinct` | cloudflare-in-alexa-top500.go:51-55 | two pages share a URL if and only if they are the same page; only page 0 uses the bare base URL |
| `Pages.PageSlotsDisjoint` | cloudflare-in-alexa-top500.go:66 | two different pages of at most 25 sites each write disjoint sets of slots |
| `Pages.PageSlotsInBounds` | cloudflare-in-alexa-top500.go:66-79 | a page below 20 with at most 25 sites writes only slots below 500 |
| `Pages.OverfullPageOverlapsNext` | cloudflare-in-alexa-top500.go:66 | a page with more than 25 sites writes the first slot of the next page |
| `Pages.OverfullLastPageOutOfBounds` | cloudflare-in-alexa-top500.go:66-79 | a 26th site on page 19 would be written to index 500, one past the end |
| `Pages.Placed` | cloudflare-in-alexa-top500.go:65-68 | writing a page's sites into the slots never changes the array's length |
| `Pages.WriteSlots` | cloudflare-in-alexa-top500.go:65-68 | the loop panics exactly when some index falls past the end; sites[25*page + i] = ex_sites[i] for every i that fits; every other slot is unchanged |
| `Pages.PageTask` | cloudflare-in-alexa-top500.go:47-74 | the page fetched is the page's URL; its sites go to its slots; a fetch or parse error returns while keeping the token; only full success gives the token back |
| `Fetch.Blank` | cloudflare-in-alexa-top500.go:79 | the array starts as 500 empty strings |
| `Fetch.Alexatop500` | cloudflare-in-alexa-top500.go:77-88 | the returned array, the tokens left held and how the launcher ended are those of the fetch-phase run over pages 0..19 |
| `Fetch.RunPagesAccounting` | cloudflare-in-alexa-top500.go:58-85 | without panics, the launcher gets through if and only if no send finds 4 tokens held (each failed page adds a token for good); afterwards it holds one token per failed page, and otherwise it is deadlocked |
| `Fetch.FetchPhaseAccounting` | cloudflare-in-alexa-top500.go:58-85 | from an empty channel, the fetch phase completes if and only if fewer than 4 of pages 0..18 fail; on completion it holds exactly as many tokens as pages failed |
| `Fetch.PagesFitNoPanics` | cloudflare-in-alexa-top500.go:65-79 | when every page yields at most 25 sites, no page task writes past the array |
| `Fetch.RunPagesContent` | cloudflare-in-alexa-top500.go:65-86 | from any point, pages already written keep their slots, and each remaining page writes only its own 25 |
| `Fetch.FetchPhaseContent` | cloudflare-in-alexa-top500.go:65-86 | with at most 25 sites per page and a completed phase: slot 25*p + i holds site i of page p, and a slot with no site (failed page, short page) is still "" |
| `Fetch.LeakDeadlocksWhenWebDown` | cloudflare-in-alexa-top500.go:58-61 | as written, when every fetch fails, pages 0-3 keep the 4 tokens and the launcher blocks before page 4 |
| `Fetch.ReleasingKeepsSlots` | cloudflare-in-alexa-top500.go:72 | the release on every path changes only the token count: whenever the loop as written completes, the releasing loop leaves the same slots |
| `Fetch.ReleasingNeverLeaks` | cloudflare-in-alexa-top500.go:72 | if the token is given back on every path without a panic, the phase always completes and ends with the tokens it started with |
| `Membership.ScanIsExists` | cloudflare-in-alexa-top500.go:124-133 | with no nil network the search never panics, and it answers true if and only if some network contains some address |
| `Membership.ScanEmpty` | cloudflare-in-alexa-top500.go:125-132 | with no address or no network the answer is false |
| `Membership.ScanFirstDecides` | cloudflare-in-alexa-top500.go:125-131 | the answer is true if and only if some network is reached (all networks before it are present and contain no address) and it contains an address; the search panics if and only if a reached network is nil and there is an address to try |
| `Membership.IpsInNets` | cloudflare-in-alexa-top500.go:124-133 | the nested loops with early return compute that network-by-network search |
| `Ranges.Split` | cloudflare-in-alexa-top500.go:105 | splitting on newlines always yields at least one piece |
| `Ranges.SplitPiecesHaveNoNewline` | cloudflare-in-alexa-top500.go:105 | no piece contains a newline |
| `Ranges.JoinSplit` | cloudflare-in-alexa-top500.go:103-105 | joining the pieces with "\n" reproduces the combined content |
| `Ranges.SplitJoin` | cloudflare-in-alexa-top500.go:103-105 | splitting newline-free pieces joined with "\n" gives back the pieces |
| `Ranges.SplitAppend` | cloudflare-in-alexa-top500.go:103-105 | splitting a + "\n" + b gives the pieces of a followed by the pieces of b |
| `Ranges.CombinedPieces` | cloudflare-in-alexa-top500.go:103-108 | the entries are the IPv4 body's entries followed by the IPv6 body's, in order |
| `Ranges.TrailingNewlineKeepsNilEntry` | cloudflare-in-alexa-top500.go:105-107 | a body that ends in a newline leaves an empty piece; it keeps its place as a nil entry instead of being dropped |
| `Ranges.CloudflareIps` | cloudflare-in-alexa-top500.go:91-111 | a missing body panics; otherwise there is exactly one entry per piece, in order, and entry i is the parser's answer for piece i, whether it parsed or not |
| `Ranges.EmptyBodiesPanicMembership` | cloudflare-in-alexa-top500.go:103-107 | as written, two empty bodies give two nil entries, and the membership test panics for any host with an address |
| `Ranges.SkipUnparsedKeepsHits` | cloudflare-in-alexa-top500.go:105-107 | dropping the unparsed pieces leaves only present networks and keeps exactly the same hits |
| `Ranges.SkipUnparsedNeverPanics` | cloudflare-in-alexa-top500.go:105-107 | with unparsed pieces dropped, the membership test never panics and answers whether some parsed network contains some address |
| `Checker.HostOutcomeMeaning` | cloudflare-in-alexa-top500.go:137-142 | with no nil network: no panic, and the host is reported with rank index + 1 if and only if it resolves and some network contains one of its addresses; a failed lookup is silent |
| `Checker.CheckHost` | cloudflare-in-alexa-top500.go:135-144 | the outcome is the host's lookup plus membership verdict, and the token is given back on every path without a panic |
| `Checker.CheckCloudflare` | cloudflare-in-alexa-top500.go:113-122 | the reports, the tokens left held and how the launcher ended are those of the check-phase run over all hosts |
| `Checker.CheckAccounting` | cloudflare-in-alexa-top500.go:116-119 | with no nil network, each host check gives back one token, so the phase ends with the tokens it started with; it finishes if and only if it starts with fewer than 4 tokens held or has no host; otherwise it is deadlocked at the first host |
| `Checker.CheckReports` | cloudflare-in-alexa-top500.go:116-143 | with no nil network and a free token, the lines reported are exactly Report(i+1, hosts[i]) for each matching host i, in increasing rank |
| `Program.Run` | cloudflare-in-alexa-top500.go:146-156 | main's reports and exit are those of the phases composed: fetch, then ranges, then check, all on one channel |
| `Program.ProgramCompletesIffFewFailures` | cloudflare-in-alexa-top500.go:58-85 | with no overfull page, both bodies present and every piece parsed, main never panics; it returns if and only if fewer than 4 of the 20 pages fail; otherwise it never returns, because the launcher blocks for good |
| `Program.ProgramReportsMatches` | cloudflare-in-alexa-top500.go:116-143 | when main returns under those conditions, it has reported exactly the list entries that resolve into a network, each ranked by its position + 1, with site i of page p at position 25*p + i |

## Left out

- HTTP (`get_http`, `http.Get`): network I/O. The web is a function from URL to response. Response bodies are never closed in the source; that leak is not modelled.
- `ioutil.ReadAll` read errors part-way through a body: a range body is given whole. A missing body (failed fetch) is modelled.
- HTML parsing and the XPath query (`launchpad.net/xmlpath`): library code. A page is either malformed or the sequence of its link texts.
- `net.ParseCIDR`: library code. The parser is a parameter of a run.
- `net.LookupIP`: a foreign call. The resolver is a parameter, a function from host to a lookup result.
- `IPNet.Contains`: modelled on bit sequences as "same family and equal first prefix-length bits". The conversion of IPv4-mapped IPv6 addresses (`To4`) is not modelled: addresses are taken in their own family's form.
- Program.Run: Go's runtime deadlock detector is not modelled. A launcher that blocks for good is reported as `NeverReturns`; the runtime may instead abort the process with "all goroutines are asleep".
- Fetch.FetchPhaseAccounting: every fetch and lookup is assumed to return. A call that never returns (the source sets no time-out on `http.Get` or `net.LookupIP`) would hold its token like a failed page; this is not modelled, and the if-and-only-if holds only for calls that return.
- Program.ProgramCompletesIffFewFailures: assumes every fetch and lookup returns, for the same reason. A page fetch that never returns would also keep its token and could block the launcher.
- Goroutines, `sync.WaitGroup`, the real blocking of the channel: concurrency. Tasks run one at a time in launch order.
- Fetch.RunPagesContent: when a page yields more than 25 sites, its writes into the next page's slots race with that page's own writes. The model states only the outcome of the sequential order.
- Checker.CheckCloudflare: collects the lines in host order. The real printing order follows completion and is nondeterministic.
- The header line printed by `check_cloudflare` and the `%3d` padding: console output.
- `strings.ToLower` beyond ASCII: Unicode case mapping is not modelled.

## Findings

| source | as written | input that shows it | evidently intended | confidence | as-written member | corrected member |
|---|---|---|---|---|---|---|
| cloudflare-in-alexa-top500.go:58-72 | the error returns at lines 60 and 70 skip `<-throttle`, so a failed page task keeps its token for good | every page fetch fails (the list site is unreachable). Pages 0-3 keep the 4 tokens and the send for page 4 blocks for good. In general `main` never returns once 4 of the 20 pages fail (Go's deadlock detector may then abort the process) | each page task gives its token back on every path | high (not executed) | `Fetch.LeakDeadlocksWhenWebDown` | `Fetch.ReleasingNeverLeaks` |
| cloudflare-in-alexa-top500.go:105-128 | a piece that `net.ParseCIDR` rejects is appended as a nil `*IPNet`, and `Contains` on it dereferences nil | both range bodies empty, or a body ending in a newline, so that "" is a piece; then any host whose addresses no earlier network contains | pieces that do not parse are skipped | medium (not executed) | `Ranges.EmptyBodiesPanicMembership` | `Ranges.SkipUnparsedNeverPanics` |

`Program.Run` composes the phases as written, because it models `main`. The
corrected definitions stand beside the as-written ones, each with its proved
property.
