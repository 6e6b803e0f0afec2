# Verification of Oxidized Wall

A Dafny model of the engines of the reverse proxy that decide whether, when and where traffic goes,
and of the text scanners that judge it, with proofs about whole runs of them.
`dafny verify dfyconfig.toml` checks everything.

| module | what it models |
|---|---|
| `Bandwidth`, `Quota` | the token buckets of src/bandwidth.rs, and exactly what they admit |
| `Throttle` | the response body wrapper of src/bandwidth.rs, and the books it keeps |
| `Relay` | one direction of the WebSocket relay of src/proxy.rs |
| `Shared` | bodies and sockets interleaved on one quota table, section by section |
| `Users` | what one user of that table does, as its own run |
| `Losses`, `Waiting` | what a body loses on that table, and how long its users wait on it |
| `Ban`, `BanProtocol` | the ban table of src/ban.rs, and its calls in flight at the same time |
| `RateLimit` | the request limiter of src/ratelimit.rs and its cleanup task |
| `Balancer`, `Shares` | ticketed round robin of src/proxy.rs over the health map of src/health.rs |
| `Routing` | the route table of src/config.rs and its use in src/proxy.rs |
| `Structure` | JSON depth and parameter pollution, src/waf/structure.rs |
| `UrlPath` | URL normalisation and traversal detection, src/waf/path.rs |
| `Card`, `Email` | data masking, src/waf/dlp.rs |

Conventions. Time is an integer number of nanoseconds, read from a monotonic clock; a reading that a
method takes in the source is a parameter of the method here. Bucket tokens are counted in
billionths of a byte, so that refill, cap and comparison are exact integers. State that the source
updates in place is a class whose methods are proved against functions on values; the results about
runs are about those functions. A section of the source that runs under one lock is one step, and
runs interleave such steps freely.

Where the code does less than its comments say, the model follows the code:

- A data frame that the quota refuses is dropped, not kept: src/bandwidth.rs:119-123 remembers its
  size only. `Losses.DeliversAllIffAllowed` gives the exact condition under which a body arrives
  whole, in terms of what the users of its address were granted before;
  `Losses.RefusedFrameIsLost` is a run on the real table that loses a frame and still pays for it. A
  refused frame larger than twice the rate also stops its body for good
  (`Losses.OversizedDemandStalls`).
- A later, shorter ban replaces a longer one (`BanProtocol.ShorterBanReplacesLonger`,
  `Ban.InsertKeepsProtectionIff`).
- Clock readings that are older than the cleanup's by more than nine seconds can see the cleanup of the
  request limiter; `RateLimit.CleanupIsInvisibleIff` says that nine seconds is exact.
- At the very instant of expiry a check still counts a ban and the cleanup does not
  (`BanProtocol.ExpiryInstantDependsOnCleanup`); `BanProtocol.EntryLifetime` says exactly how long an
  entry lives, and `BanProtocol.CheckAnswersYesIff` what the checks then answer.
- Near the wrap of the 64-bit ticket counter the balancer can answer "no upstream" although one is
  healthy; `Balancer.FindsHealthyIff` gives the exact condition, `Balancer.WrapMissesHealthy` an input.
- A bracket inside a JSON string disturbs the depth check; `Structure.BracketFreeIsExact` says which
  texts are harmless.
- An e-mail address can be left after masking when a masked address is directly followed by another
  at sign (`Email.SecondAtSignExposes`). `Email.AddressLeftIffExposed` gives the exact condition for
  the e-mail stage. The card stage can still destroy such an address, so the exact condition for the
  whole function is the one in `Email.OutputIsMasked`: some match of the input is exposed, and the
  card numbers of the text between the stages leave its second at sign alone, with the letter before
  it and some domain behind it.

## Model

| member | source | states |
|---|---|---|
| Bandwidth.TokenBucket.Consume | src/bandwidth.rs:25-42 | a call refills for the elapsed time (zero if the clock seems to go back), caps at twice the rate, and succeeds exactly when the tokens cover the amount, which it then takes |
| Bandwidth.BandwidthLimiter.TryConsume | src/bandwidth.rs:58-61 | creates an empty bucket for a new address and touches no other address |
| Quota.History.TokensAreLeastSlack | src/bandwidth.rs:25-42 | the tokens a call finds are the minimum of all allowances left over from the earlier calls and from the creation |
| Quota.History.ExactAdmission | src/bandwidth.rs:25-42 | a call is admitted if and only if the admitted total then stays within 2·rate + rate·(now − s) since every earlier call time s and within rate·(now − creation) since the creation |
| Quota.History.SpanBound | src/bandwidth.rs:29-41 | consecutive calls are admitted at most 2·rate plus what accrues over their span |
| Quota.History.CreationBound | src/bandwidth.rs:17-22 | a bucket starts empty, so all it ever admits is what accrued since it was created |
| Quota.History.WindowBound | src/bandwidth.rs:29-41 | any window of time admits at most 2·rate + rate·length |
| Quota.BucketsWithinCap | src/bandwidth.rs:25-42 | after any trace every bucket holds between zero and 2·rate |
| Quota.OnlyOwnCallsCount | src/bandwidth.rs:58-61 | after any trace over many addresses, an address's bucket is the one its own calls alone produce |
| Quota.VerdictIsOwnHistory | src/bandwidth.rs:58-61 | calls for other addresses never change a verdict |
| Quota.AcceptedIffWithinAllowances | src/bandwidth.rs:25-61 | exact admission for every attempt of every trace on the shared table |
| Quota.SharedBucketBound | src/bandwidth.rs:58-61 | in any trace and any window, an address is debited at most 2·rate + rate·length |
| Quota.WholeTraceBound | src/bandwidth.rs:17-61 | a trace whose readings for an address lie in [t1, t2] debits it at most rate·(t2 − t1) |
| Throttle.ThrottledBody.PayDebt | src/bandwidth.rs:104-111 | the first half of a poll pays for the frame refused earlier, or stops the poll |
| Throttle.ThrottledBody.Receive | src/bandwidth.rs:113-129 | the second half takes the next frame and delivers it, or drops it and remembers its size |
| Throttle.ThrottledBody.PollFrame | src/bandwidth.rs:93-130 | one poll without interference between its halves: the answer, the body and the shared table afterwards, for every rate including zero |
| Throttle.AnswersFollowScript | src/bandwidth.rs:113-129 | over every run, at every rate, the answers passed on are those of the wrapped body one by one and unchanged (frames, end, failure, Pending), with Pending in place of each data frame that the quota refused |
| Throttle.PollIsTwoSections | src/bandwidth.rs:103-111 | a poll answers Pending and changes nothing while its debt is refused, and otherwise what its second section answers |
| Throttle.RateZeroIsTransparent | src/bandwidth.rs:98-100 | at rate zero n polls give the first n answers of the wrapped body, then Pending, and leave the shared table as it is |
| Throttle.RunsBalance | src/bandwidth.rs:93-130 | over any run with a rate above zero, whatever the quota's verdicts and whatever happens between the halves of a poll: frames taken follow the inner body; each is marked refused if and only if it is a data frame for which the quota said no; frames delivered are those not marked, in order; the pending amount is the size of the last refused frame until paid; debited plus pending equals delivered plus refused bytes |
| Throttle.NothingLostIff | src/bandwidth.rs:114-123 | everything taken is delivered if and only if the quota says yes each time it is asked for an arriving frame |
| Throttle.DebtCanBePaidIff | src/bandwidth.rs:31-41 | a refused frame can ever be paid for if and only if it is at most twice the rate |
| Relay.Pump | src/proxy.rs:405-426 | the bytes written are exactly those that can be read, paid for and written, in order (`Output`), and the direction is over exactly if a write failed or a read without data was reached (`Over`); written is a prefix of read, behind by at most one buffer; with a quota, written ≤ debited ≤ read |
| Relay.RelayIsExact | src/proxy.rs:428-448 | the same from any point between two chunks |
| Relay.AllGoesThrough | src/proxy.rs:405-426 | if every read brings data and every chunk can be paid for and written, all data goes through and the direction stays open |
| Relay.Direction.StepsStayInStep | src/proxy.rs:405-448 | every read, verdict and write keeps read, debited and written bytes in step, in every phase of the loop |
| Relay.SoleUserIsPaid | src/proxy.rs:414-418 | a chunk of at most 2·rate bytes waits for at most ⌈200·n/rate⌉ refusals when nobody else uses the bucket |
| Relay.TooLargeNeverPays | src/proxy.rs:414-418 | a chunk above 2·rate is never paid for |
| Relay.WaitEndsIff | src/proxy.rs:414-418 | the wait of a sole user is certain to end if and only if the chunk is at most 2·rate |
| Shared.TurnIsHalfPoll | src/bandwidth.rs:103-130 | a turn of a response does to its body and to the table what the half of `PollFrame` it stands for does |
| Users.ResponseIsOwnPolls | src/bandwidth.rs:93-130 | in every reachable state a response is its own body, polled with the verdicts that the shared table gave it |
| Users.SocketRelaysExactly | src/proxy.rs:405-448 | in every reachable state a WebSocket direction has written exactly what the relay writes on the answers that came when it waited for them, and is over exactly when the relay is |
| Shared.StepKeepsConsistent | src/proxy.rs:328-333 | every locked section of every body and socket keeps the table explained by the log of attempts and the books of all users equal to the debits of that log |
| Shared.ReachedIsConsistent | src/bandwidth.rs:58-130 | that holds in every reachable state, under every interleaving, also when others debit the bucket between the two debits of a poll |
| Shared.CarriedBytesBound | src/bandwidth.rs:104-123 | all bodies and sockets of an address together carry at most rate·(t2 − t1) bytes in a run between t1 and t2, whatever others do |
| Shared.WindowOfRunBound | src/proxy.rs:414-439 | while the readings of an address lie in [t1, t2], its users are debited at most 2·rate + rate·(t2 − t1) by their own books, and carry at most that plus one paid-for buffer per WebSocket direction |
| Losses.DeliversAllIffCovered | src/bandwidth.rs:114-123 | a response has delivered all it took if and only if, at each of its data frames, the shared bucket just before held enough, whoever used it in between |
| Losses.DeliversAllIffAllowed | src/bandwidth.rs:31-41 | the same without the bucket: if and only if each data frame on arrival kept its address within all its allowances, given everything granted to its users before |
| Losses.RefusedFrameIsLost | src/bandwidth.rs:119-123 | on a new address the first frame of up to 2·rate bytes is refused, paid for two seconds later and never delivered |
| Losses.OversizedDemandStalls | src/bandwidth.rs:104-111 | a body that owes, or a socket that waits for, more than 2·rate never moves again, whatever happens |
| Waiting.SoleSocketWaitsBriefly | src/proxy.rs:414-418 | from any reachable state, a WebSocket direction that nobody disturbs is refused at most ⌈200·n/rate⌉ times for a chunk of n ≤ 2·rate bytes |
| Waiting.PaidOnceAccrued | src/bandwidth.rs:25-42 | a user that waits undisturbed for n ≤ 2·rate bytes is granted them by its first turn at least n/rate seconds after its bucket was last filled, however often it was refused meanwhile |
| Waiting.DebtIsPaidOnceAccrued | src/bandwidth.rs:104-111 | the same for the debt of a response: it is paid in full by that turn, and an owing response always has a bucket |
| Waiting.CompetitorKeepsWaiting | src/bandwidth.rs:58-111 | for every k, a run in which another response of the address takes all that accrues, and a response that asks once a second, for however few bytes, is refused k times |
| Ban.BanManager.CheckRead | src/ban.rs:77-86 | the read phase answers yes at or before expiry, no for an unknown address, and leaves the rest to the write phase |
| Ban.BanManager.CheckWrite | src/ban.rs:87-97 | the write phase decides again and removes an entry found expired |
| Ban.BanManager.Check | src/ban.rs:75-98 | both phases without interference |
| Ban.BanManager.Punish | src/ban.rs:50-72 | for each of the four violations, the duration configured for it; zero seconds bans nobody |
| Ban.BanManager.Cleanup | src/ban.rs:42-44 | keeps exactly the entries that expire strictly later |
| Ban.InsertKeepsProtectionIff | src/ban.rs:66-72 | a new ban keeps all the protection there was if and only if it does not end earlier |
| BanProtocol.StepKeepsSafe | src/ban.rs:36-98 | each lock section of each call, with its stale clock reading, keeps the table safe |
| BanProtocol.BanSafety | src/ban.rs:36-98 | in every reachable state each entry is the last ban written for its address, and a last ban that expires later than now is in the table |
| BanProtocol.CheckCorrectness | src/ban.rs:75-98 | a yes means the last ban ran at least to the instant sampled by the call, a no means there was none or it had run out when the call decided, also when a ban lands between the phases |
| BanProtocol.PunishmentIsAsConfigured | src/ban.rs:50-72 | whatever happens meanwhile, the ban written ends the seconds configured for its violation after the call; zero starts nothing |
| BanProtocol.CallsSampleOnce | src/ban.rs:42-77 | a check judges by the clock at its call, a cleanup by the clock at its tick, however late they get the lock |
| BanProtocol.BanHolds | src/ban.rs:66-98 | from the moment a ban is written until it expires or is overwritten, every check that decides answers yes |
| BanProtocol.EntryLifetime | src/ban.rs:36-98 | until the address is banned again, an entry is in the table if and only if no cleanup that sampled the clock at its expiry or later, and no check of it that sampled later, has had its write section |
| BanProtocol.CheckAnswersYesIff | src/ban.rs:75-98 | the deciding section of a check answers yes if and only if it sampled no later than the expiry and no such section has run before |
| BanProtocol.ExpiryInstantDependsOnCleanup | src/ban.rs:44-80 | an input: at the instant of expiry a check answers yes before a cleanup and no after it |
| BanProtocol.ShorterBanReplacesLonger | src/ban.rs:66-72 | a timeout ban written after a longer firewall ban shortens it |
| RateLimit.RateLimiter.Check | src/ratelimit.rs:41-64 | one request on the records: `Verdict` and `AfterCheck`, which the rows below are about; zero means no limit |
| RateLimit.RateLimiter.Sweep | src/ratelimit.rs:33-35 | drops the records of one shard that are ten seconds old or older, and leaves all others as they are |
| RateLimit.RefusedIffWindowFull | src/ratelimit.rs:43-63 | in any trace, a request is refused if and only if there is a limit and that many requests of its address have been admitted since its window began, windows being told from the readings of admitted requests alone |
| RateLimit.QuietSecondIsEnough | src/ratelimit.rs:52-55 | a request a second or more after every admitted request of its address is admitted |
| RateLimit.RefusedLeavesNoTrace | src/ratelimit.rs:57-63 | without a refused request every other request gets the verdict it got |
| RateLimit.CleanupIsInvisible | src/ratelimit.rs:26-38 | with readings that go back by at most nine seconds, cleanup interleaved shard by shard never changes a verdict |
| RateLimit.CleanupIsInvisibleIff | src/ratelimit.rs:33-35 | cleanup is invisible in all runs whose readings go back by at most d if and only if d is at most nine seconds |
| RateLimit.StretchBound | src/ratelimit.rs:46-63 | readings within m seconds, in any order, admit at most (m + 1)·max_rps − 1 requests of an address |
| RateLimit.RateWindowBound | src/ratelimit.rs:26-64 | with cleanup, and locks obtained at most `lag` ≤ 9 seconds after the reading, any window of k seconds of lock time admits at most (k + lag + 1)·max_rps − 1 |
| RateLimit.BoundIsReached | src/ratelimit.rs:52-63 | the bound is reached, for every limit, every k and every delay |
| Balancer.SelectUpstream | src/proxy.rs:104-121 | draws one ticket and returns the first healthy upstream from there on, the index sum wrapping at 64 bits; none for an empty list |
| Balancer.HealthManager.Record | src/health.rs:46 | the recorded status becomes that upstream's health, all other upstreams keep theirs |
| Balancer.HealthManager.constructor | src/health.rs:17-24 | an upstream that was never probed counts as healthy |
| Balancer.PickFromIsFirst | src/proxy.rs:112-120 | the pick is the first healthy position tried; none means none tried is healthy |
| Balancer.FindsHealthyIff | src/proxy.rs:110-120 | a healthy upstream is found whenever there is one, if and only if the scan does not wrap at 64 bits or the length divides 2^64 |
| Balancer.ScanIsFirstUp | src/proxy.rs:112-120 | with health that may change at every attempt, the pick is the first position that was up when it was tried, and none means each was down when tried |
| Balancer.SteadyUpstreamIsEnough | src/proxy.rs:112-120 | clear of the wrap, one upstream that stays up through the scan keeps it from finding none |
| Balancer.WrapMissesHealthy | src/proxy.rs:113 | three upstreams, the last ticket before the wrap, the healthy one is missed |
| Shares.ExactShare | src/proxy.rs:104-121 | of any len consecutive tickets a healthy position gets one plus the number of unhealthy positions immediately before it |
| Shares.SharesAddUp | src/proxy.rs:104-121 | the shares of all positions add up to the number of tickets |
| Shares.FairWhenAllUp | src/proxy.rs:104-121 | with all upstreams healthy any run of tickets is spread with differences of at most one |
| Shares.AnyScheduleGivesExactShares | src/proxy.rs:110-119 | callers that draw and finish in any order get the same exact shares |
| Routing.SortLongestFirst | src/config.rs:139 | the table is sorted by descending length and holds the same routes |
| Routing.CollectRoutes | src/config.rs:131-137 | a fresh counter at zero for every route |
| Routing.VHost.constructor | src/config.rs:130-163 | walking the map in any order gives the table of the configuration, with a counter of its own for every route |
| Routing.VHost.MatchRoute | src/proxy.rs:215-224 | the first route whose prefix starts the path and has a counter |
| Routing.VHost.Dispatch | src/proxy.rs:214-227 | only the matched route's counter moves, by one, and the upstream is the pick of its ticket |
| Routing.FirstHitIsLongestPrefix | src/proxy.rs:217-226 | the first hit is the longest configured prefix with its configured upstreams; no hit exactly when no prefix matches |
| Routing.LongestPrefixIsUnique | src/proxy.rs:218 | the longest matching prefix is unique |
| Routing.OrderDoesNotMatter | src/config.rs:134-139 | any two tables built from one configuration route every path the same way |
| Routing.CounterIsOwnTraffic | src/config.rs:134-137 | after any run a route's counter is the number of its own requests |
| Routing.ServedIsOwnShare | src/proxy.rs:217-227 | a route's upstreams serve what as many consecutive tickets would, independent of the other routes |
| Routing.RouteIsFair | src/proxy.rs:217-227 | with all its upstreams healthy, a route's requests are spread with differences of at most one |
| Structure.CheckJsonDepth | src/waf/structure.rs:3-14 | true if and only if no contiguous part has more than max_depth opening brackets beyond its closing ones |
| Structure.PeakIsLargestBalance | src/waf/structure.rs:4-12 | the highest value of the saturating counter is the largest balance of any contiguous part |
| Structure.CheckMeasuresDepth | src/waf/structure.rs:3-14 | for every array and object tree, laid out with any white space, whose texts hold no brackets, the check passes if and only if its depth is within the limit |
| Structure.BracketFreeIsExact | src/waf/structure.rs:6-11 | a text leaves the check exact in every tree and for every limit if and only if it holds no brackets |
| Structure.HasParameterPollution | src/waf/structure.rs:37-46 | reports exactly the inputs in which two pairs have the same nonempty key |
| Structure.SplitThenJoin | src/waf/structure.rs:40 | splitting loses nothing and leaves no separator |
| Structure.JoinThenSplit | src/waf/structure.rs:40 | splitting recovers the parts that were joined |
| Structure.ReportedIffNameRepeats | src/waf/structure.rs:37-46 | a query is reported if and only if two parameters it was built from, with or without a value, share a nonempty name |
| UrlPath.NormalizeUrl | src/waf/path.rs:21-36 | the decoding loop computes `Decode`, which the rows below determine on every text |
| UrlPath.EscapesDecode | src/waf/path.rs:25-31 | an escape sign and two hexadecimal digits decode to their byte, and so do a sign, a plus and a digit, and a sign and one digit at the end |
| UrlPath.OtherTextStays | src/waf/path.rs:32-33 | an escape sign with any other two characters behind it stays with them, a final sign with at most one non-digit stays, and so does every other character |
| UrlPath.DecodeUndoesEncode | src/waf/path.rs:21-36 | decoding undoes every choice of escapes, in either letter case (section 2.1 of RFC 3986) |
| UrlPath.EncodingDoesNotHide | src/waf/mod.rs:17-20 | the traversal verdict on an encoded URI is that on the plain text |
| UrlPath.TraversalIff | src/waf/path.rs:9-16 | a text is a traversal if and only if some part of it is one of the seven patterns, in any letter case |
| UrlPath.PatternIsFound | src/waf/path.rs:39-41 | each pattern, in any letter case, is found in whatever text it stands |
| UrlPath.DecodeShrinksIff | src/waf/path.rs:21-36 | decoding leaves a text alone if and only if it has no escape, and makes it strictly shorter otherwise |
| UrlPath.DecodingSettles | src/waf/path.rs:21-36 | as many passes as the text has characters reach a fixed point |
| Card.MatchAtIff | src/waf/dlp.rs:15-18 | the matcher, trying alternatives in the engine's order, finds a card at a position if and only if one starts there |
| Card.MatchIsShortest | src/waf/dlp.rs:15-18 | of the cards that start at a position the engine takes the shortest, although it repeats greedily |
| Card.MaskingReplacesCards | src/waf/dlp.rs:31 | masking replaces exactly the cards found from left to right, each the shortest at its place, by ****-****-****-****, and keeps all text in front of, between and behind them |
| Card.LeftmostCardsAreUnique | src/waf/dlp.rs:31 | there is only one way to find them |
| Card.NoCardSurvives | src/waf/dlp.rs:31 | no part of the masked text matches the card pattern, for any Unicode tables |
| Card.MaskingIffCard | src/waf/dlp.rs:31 | masking leaves a text alone if and only if it has no card, and masking twice is masking once |
| Email.AddressAtIff | src/waf/dlp.rs:10-13 | the matcher finds an address at a position if and only if one starts there |
| Email.MatchIsLongest | src/waf/dlp.rs:10-13 | of the addresses that start at a position the engine takes the longest |
| Email.OnlyFindsAreMasked | src/waf/dlp.rs:20-31 | all that the function changes: the local parts of the addresses found from left to right, each the longest at its place, become four stars, with at sign and domain kept; then the cards of the result become the mask; all other text stays |
| Email.LeftmostAddressesAreUnique | src/waf/dlp.rs:21-28 | there is only one way to find the addresses |
| Email.AddressLeftIffExposed | src/waf/dlp.rs:21-28 | an address is left after masking if and only if some match is directly followed by an at sign and a domain that does not itself begin an address |
| Email.AddressSparedIff | src/waf/dlp.rs:31 | the card stage leaves an address in a text if and only if the text has one wholly between its cards |
| Email.SecondAtSignExposes | src/waf/dlp.rs:6-32 | a@b.com@c.com comes out of both stages with an address in it |
| Email.OutputIsMasked | src/waf/dlp.rs:6-32 | the output of both stages has no card; it has an address if and only if some match of the input is exposed and, in the text between the stages, no card covers the letter before its second at sign, that sign or some domain behind it |
| Email.SparedIffExposedAndSpared | src/waf/dlp.rs:21-31 | the addresses that the e-mail stage leaves away from the cards are those of the exposed matches of the input that the cards spare |

## Left out

- Rounding of the 64-bit floating-point tokens, and overflow of `Instant` plus a duration.
- Wrap of the ticket counter in the shares: `Shares` and the fairness results in `Routing` require the tickets of a run, with one scan more, to stay below 2^64; `Balancer.FindsHealthyIff` says what happens at the wrap itself.
- A `usize` of other than 64 bits, and debug builds, in which the index sum would panic instead of wrapping.
- A clock that is read on several cores for different addresses out of order: readings are required in order per address only.
- Health that changes during a round: the shares are for health that stays as it is. `Balancer.ScanIsFirstUp` covers health that changes during one scan.
- The stability of the sort in src/config.rs; `Routing.OrderDoesNotMatter` shows that it cannot matter.
- Duplicate domains in a configuration, host lookup, TLS, certificates and the rest of src/config.rs.
- The regular expression engine beyond its order of alternatives, and its Unicode tables, which are parameters of `Card`.
- The Aho-Corasick automaton: a traversal pattern occurs where it matches a part of the text up to ASCII letter case.
- The attack signatures of src/waf/core.rs, file checks, header checks, `is_high_density` and `is_malicious_bot`: each is one expression or one library call.
- Listeners, connection limits, HTTP forwarding, the WebSocket handshake and probing of upstreams: network code.
- The wakeups a pending body asks for: runs are over all sequences of polls.
