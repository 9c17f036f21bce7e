# A verified model of the rate limit service

This project models the core of a rate limit service and its management plane, and
proves properties of it for all inputs, all runs and all interleavings.

- **Counters.** One decision judges many buckets at once, each a GCRA bucket (the virtual
  scheduling form of Annex A of ITU-T I.371) or an epoch-aligned fixed window, and all of
  them commit or none does (`Windows`, `Counters`, `Runs`, `Budgets`, `Expiry`, `Hints`,
  `Replies`).
- **Policies.** A policy is compiled into a snapshot; a request is matched against it
  through cascades, suppression, shadow and bypass rules; the decision and its headers
  follow (`Compiler`, `Matcher`, `Queries`, `AnyMethod`, `Guarantees`, `Sharing`, `Headers`,
  `Engine`, `Requests`, `Shadows`).
  The management plane annotates the same cascade with a three-valued analysis
  (`Applicability`).
- **Reset commands.** Idempotency records, single-use tokens, a lease with fencing tokens,
  batches, outcomes, and finalisation by a retry (`Records`, `RedisRecords`, `Tallies`,
  `Protocol`, `Consistency`, `Safety`, `Disclosure`, `Deletions`, `Conditions`, `Sweep`).
- **Keys and listings.** The counter key codec (`Keys`) and the paged listing (`Listing`).
- **Derived forms.** The token cache (`TokenCache`) and the operator's last-good selection
  with its size fit (`Fit`).

## How the model is built

Strings are byte sequences ordered as Go orders them. Instants are integer microseconds,
periods and waits nanoseconds, and Go's truncating division is written out. Integers are
unbounded, and the lemmas about overflow state where an `int64` would be enough. Objects the
program mutates are classes; each of their methods is proved equal to a function of the old
state, and properties over runs are proved about those functions. Functions whose insides
do not matter, such as identity extraction, hashing, payload sizes and the compilation of a
single spec, are function-typed parameters.

The main results, for all inputs and over all runs:

- No interval of any run charges a GCRA counter more than its depth and the interval allow,
  and no aligned window more than its limit (`Budgets.GcraBudget`,
  `Budgets.FixedWindowBudget`).
- A request is let through exactly when every enforcing bucket has room, spends exactly the
  prices, and when refused is let through again exactly from the announced wait on
  (`Requests.DecisionIsExact`, `Requests.HeadersAreExact`,
  `Requests.RetryAfterCuresTheRequest`), after any history
  (`Requests.EveryRequestFindsTendedCounters`).
- Which rules judge a request, and which requests share a counter
  (`Sharing.MatchedExactly`, `Sharing.SharedExactly`).
- Shadow rules change nothing (`Shadows.ShadowRulesDoNotInterfere`), and lazy expiry cannot
  be seen (`Expiry.LazyExpiryIsInvisible`).
- The compiler makes exactly the sound and proper snapshots (`Compiler.CompiledIsSound`,
  `Compiler.CompiledIsProper`, `Compiler.SoundSnapshotsAreWritten`), and no request of one
  can trip a guard (`Guarantees.CompiledDecisionsReachTheStore`).
- A bulk reset deletes exactly what its outcome says it reset, under any interleaving
  (`Deletions.ResetIsDeletion`, `Disclosure.DisclosedProgressIsExact`), a domain has one
  walker at a time and an outcome is final (`Safety.LeaseHasAnOpenRecord`,
  `Safety.FencingNeverReturns`, `Safety.OutcomeIsFinal`).
- A listing returns every key that stays live exactly once (`Listing.ListingIsComplete`),
  and a size fit is a fixed point (`Fit.FitIsAFixedPoint`).

Six properties hold under conditions that the project proves exact:

- A peek leaves every live counter alone exactly when no bucket names one under another
  algorithm (`Expiry.PeekIsHarmlessExactly`). Keys carry the algorithm, so this holds of
  every key the writer makes.
- Widening the scope of the applicability analysis never takes a rule out of always or
  never exactly when each newly declared guaranteed key is given one value
  (`Applicability.MonotoneExactly`).
- Every recorded outcome, a walker's own or a retry's, discloses what the command did, in
  every run, exactly when three things hold: a retry's finalisation runs within the lifetime
  of a lease of the read that saw the record, no copy of a batch runs after a later batch
  has, and no batch first runs after its walker has read the record back
  (`Conditions.OutcomesAreExactIff`). The client of the records times out and keeps its
  retries (service/internal/settings/settings.go:191-209), and the batch script writes
  progress without comparing it, so none of the three is a matter of course; a failing run is
  given for each.
- A confirmation token starts at most one command in every run exactly when no copy of its
  write runs after it was spent (`Conditions.TokensAreSingleUseIff`).
- The two record stores answer an addressed reset alike exactly when its list holds no empty
  key and, unless it is a dry run, no repeat (`RedisRecords.StoresAnswerAlikeExactly`).
- The size fit keeps a limit the saved state met when, and only when for every way of
  measuring, a saved generation is the spec that is read of it
  (`Fit.FitKeepsTheLimit`, `Fit.UnpinnedReadOverflows`).

The protocol rests on these premises: fencing tokens are fresh, a lease lives shorter than a
record, the record key determines the domain's lease, an acceptance is resent only while the
record it made lives, and the clock does not run backwards. Everything else may interleave at
every store step, replies may be lost, a walker may stop for good anywhere, and a copy of any
batch a walker ever sent may run at any later time, after its call has failed or a later
batch has run. Four conditions on that are parameters of a run (`Protocol.Pace`): how long
after its read a retry's finalisation may still run, whether a copy of a batch may run after
a later one has, whether a batch may first run after its walker has read the record back, and
whether a token's write may run again after the token was spent. The results of `Safety`
hold whatever they are, except `Safety.TokenIsSpentOnce`, which needs the last one; the
exactness results say which they need.

Where the code and its comments differ the model follows the code. The record store's
interface says that a lookup reads the binding and the lease in one step; the shared store
sends two reads in one pipeline, so the protocol model takes them as two steps.

## Model

| member | source | states |
|---|---|---|
| `Windows.EmissionIsCeiling` | engine/algo/gcra.go:34-36 | the emission interval is the period over the requests rounded up: large enough for the period, and one less is not |
| `Windows.EmissionErrsStrictByUnderOnePercent` | engine/algo/gcra.go:10-65 | every GCRA window that passes the check errs strict, and by under one percent |
| `Windows.TauIsBounded` | engine/algo/gcra.go:41-65 | a checked bucket's depth is at least one emission and at most the supported maximum |
| `Windows.CheckIsExact` | engine/algo/algo.go:91-111 | the windows an algorithm takes, in numbers: whole seconds up to the longest period, for GCRA a depth within the maximum and an emission interval that is exact or long, for a fixed window no burst |
| `Counters.GuardIsExact` | engine/store/store.go:152-167 | the guard lets through exactly the lists with distinct keys, guarded windows and positive costs |
| `Counters.GuardBuckets` | engine/store/store.go:152-167 | the guard loop reports exactly the first error the specification finds |
| `Counters.FirstOffenceIsReported` | engine/store/store.go:152-167 | the error is that of the first bucket that cannot stand after the ones before it: its cost, then its key, then its window |
| `Counters.Store.constructor` | engine/store/memory/memory.go:43-45 | a new store holds nothing |
| `Counters.Store.EvalOne` | engine/store/memory/memory.go:178-190 | judging one bucket drops an expired or foreign entry and evaluates against what is left |
| `Counters.Store.EvalAll` | engine/store/memory/memory.go:172-193 | judging a list evaluates each bucket against the table as it was, and stops at an unknown algorithm having dropped only what it reached |
| `Counters.Store.NoneRefused` | engine/store/memory/memory.go:89-94 | a decision is admitted exactly when no enforcing bucket refuses |
| `Counters.Store.CommitAll` | engine/store/memory/memory.go:96-105 | an admitted decision writes exactly the buckets that allowed it, and reports charged numbers for those alone |
| `Counters.Store.Decide` | engine/store/memory/memory.go:76-106 | the two-pass decision: new table and reply are those of the specification, errors included |
| `Counters.Store.Peek` | engine/store/memory/memory.go:109-126 | the same judgement with nothing committed |
| `Counters.Store.Reset` | engine/store/memory/memory.go:130-137 | exactly the named keys are dropped |
| `Counters.Store.Scan` | engine/store/memory/memory.go:146-170 | the least live keys under the prefix above the cursor, in order, with the last as the next cursor; expired entries are swept |
| `Runs.StepCharges` | engine/store/memory/memory.go:96-105 | in any run a charge writes exactly the next state of the bucket it charged |
| `Runs.StepForgets` | engine/store/memory/memory.go:130-182 | without a charge an entry is kept as it is, or goes because it expired, was reset, or was named under another algorithm |
| `Budgets.GcraBudget` | engine/store/memory/memory.go:200-237 | over any run and any interval the charges of a GCRA key cost at most its depth plus the interval, so a period admits at most burst + requests |
| `Budgets.FixedCountIsExact` | engine/store/memory/memory.go:241-274 | the stored count is the sum of the charges of the current window, through any retuning of the limit |
| `Budgets.FixedWindowBudget` | engine/store/memory/memory.go:241-274 | each aligned window charges at most the limit, and any span of one period at most twice the limit |
| `Expiry.LazyExpiryIsInvisible` | engine/store/memory/memory.go:172-182 | every run answers as a store that never deletes would |
| `Expiry.QuietStepsLeaveNoTrace` | engine/store/memory/memory.go:76-126 | a refused decision or a peek, anywhere in any run, changes no later answer |
| `Expiry.PeekIsHarmlessExactly` | engine/store/memory/memory.go:109-126 | a peek keeps every live counter exactly when no bucket names one under another algorithm |
| `Expiry.PeekUnderAnotherAlgorithmForgets` | engine/store/memory/memory.go:178-182 | an input on which a peek changes a later verdict |
| `Expiry.DecideChargesExactly` | engine/store/memory/memory.go:89-105 | an admitted decision charges each enforcing bucket its cost and each shadow bucket exactly when its own verdict allows; a refused one charges nobody |
| `Expiry.PeekForetellsDecide` | engine/store/memory/memory.go:76-126 | a peek announces the verdicts a decision would reach, and both refuse what cannot be judged alike, with the guard's error or the unknown algorithm |
| `Hints.RunsLeaveSensibleState` | engine/store/memory/memory.go:200-274 | every state a run leaves under a key is one the exactness results apply to |
| `Hints.RemainingIsExact` | engine/store/memory/memory.go:200-274 | Remaining is r exactly when every cost up to r is admitted now and none above |
| `Hints.ChargedNumbersDescribeTheNextState` | engine/store/memory/memory.go:276-293 | the numbers of a charged verdict are the current numbers of the state it wrote |
| `Hints.RetryAfterIsTheLeastWait` | engine/store/memory/memory.go:200-274 | RetryAfter is the least wait after which the same cost is admitted |
| `Hints.CostExceedsIsExact` | engine/store/memory/memory.go:200-274 | a cost is reported unfittable exactly when no wait admits it, which is when it exceeds the capacity |
| `Hints.ResetAfterIsTheLeastWait` | engine/store/memory/memory.go:200-274 | ResetAfter is the least wait after which the whole capacity is back |
| `Hints.EffectiveWindowIsTheLeastWait` | engine/engine.go:443-453 | the effective window is the least wait after which Remaining rises, in (0, ResetAfter]: the t of section 4 of draft-ietf-httpapi-ratelimit-headers-11 |
| `Hints.EffectiveWindowAfterACharge` | engine/engine.go:443-453 | the same of an admitted request, whose verdict describes the state after it |
| `Hints.DepthIsBounded` | engine/store/memory/memory.go:200-237 | through any sequence of checked windows no arrival time is further ahead than the supported depth |
| `Hints.GcraDoesNotOverflow` | engine/store/memory/memory.go:200-237 | no number a GCRA evaluation computes leaves an int64 |
| `Hints.FixedDoesNotOverflow` | engine/store/memory/memory.go:241-274 | no number a fixed window evaluation uses leaves an int64 |
| `Hints.RunsDoNotOverflow` | engine/store/memory/memory.go:200-274 | in every run from the empty store, under checked windows, costs in range and instants up to the last supported one, no evaluation of either algorithm leaves an int64 |
| `Hints.RemainingIsWithinCapacity` | engine/store/memory/memory.go:200-274 | Remaining, before or after a charge, is at least zero and at most the capacity |
| `Replies.VerdictsAreExact` | engine/store/memory/memory.go:276-293 | every verdict of a decision or a peek: it allows exactly the costs there is room for; Remaining is the largest cost that still fits and ResetAfter the least wait until nothing is used up, of the counters the call leaves; a refusal's RetryAfter is the least wait after which the cost fits, or -1 exactly when the cost is above the capacity |
| `Replies.EffectiveWindowsAreExact` | engine/engine.go:443-453 | the effective window of every verdict is the least wait after which more than Remaining fits the counters the call leaves |
| `Replies.RunsLeaveTendedCounters` | engine/store/memory/memory.go:172-293 | every run in which a key counts by one algorithm and period leaves counters those results apply to |
| `Keys.EscapeString` | engine/key/key.go:137-151 | the escaping loop percent-encodes the five reserved bytes and nothing else |
| `Keys.UnescapeInvertsEscape` | service/internal/management/keys.go:136-162 | unescaping undoes escaping for every byte string |
| `Keys.EscapeHoldsNoDelimiter` | engine/key/key.go:132-151 | an escaped string holds no delimiter |
| `Keys.UnescapeSegment` | service/internal/management/keys.go:136-162 | the unescaping loop decodes as specified and refuses malformed escapes |
| `Keys.BuildBucketKey` | engine/key/key.go:57-69 | the builder appends each axis escaped and terminated |
| `Keys.ParseCounterKey` | service/internal/management/keys.go:52-94 | the parsing loop answers the parsed key or the first error of the specification |
| `Keys.SplitRuleInverts` | service/internal/management/keys.go:115-132 | splitting the rule segment gives back block and rule, and refuses an empty name |
| `Keys.ParseInvertsBucketKey` | service/internal/management/keys.go:52-162 | the reader inverts the writer for every nonempty block and rule name and all axes, and refuses an empty name |
| `Keys.PrefixesScopeExactly` | engine/key/key.go:39-130 | a domain, block, rule or leading-axes prefix covers a key exactly when the key belongs to that scope |
| `Keys.KeysAreInjective` | engine/key/key.go:39-69 | two keys are the same bytes exactly when they are the same counter |
| `Keys.HashTagIsTheDomain` | engine/store/redis/redis.go:204-211 | every key's hash tag is its namespace and domain, by the rule of the Redis Cluster specification, "Hash tags" |
| `Matcher.PositiveInteger` | engine/match/match.go:103-116 | digits of any length saturate at the largest cost; anything else is no number |
| `Matcher.ReadQueryCost` | engine/match/match.go:63-84 | the scan of the query finds the largest occurrence of the parameter, or the default |
| `Queries.DecodedInvertsFormEncode` | engine/match/match.go:89-98 | decoding undoes form encoding for every byte string |
| `Queries.QueryCostIsWritten` | engine/match/match.go:63-116 | of a query string written from any pairs, the cost read is the largest value written for the parameter, as a decimal number up to the largest cost, with the default for anything else and when it is not mentioned |
| `Matcher.TemplateMatchesExactly` | engine/match/match.go:407-434 | a template matches exactly the paths that have its literals in place and something nonempty for each placeholder; every placeholder is captured, from its own place |
| `Matcher.MatchSegments` | engine/match/match.go:409-434 | the segment loop answers the captures of the specification |
| `Matcher.MatchRoute` | engine/match/match.go:384-394 | a path against a route of any kind |
| `Matcher.PrefixIsSegmentWise` | engine/match/match.go:400-405 | a prefix admits exactly the paths whose leading segments are its own |
| `Matcher.PredicatesMean` | engine/match/match.go:524-543 | each operator as a statement about the set of the key's values |
| `Matcher.FirstRoute` | engine/match/match.go:361-382 | the target is the first route that admits path and method |
| `Matcher.FindTarget` | engine/match/match.go:361-382 | the loop over the routes answers the target of the specification, with the cost its route reads |
| `Matcher.FindHits` | engine/match/match.go:39-55 | the targeted blocks, in order |
| `Matcher.EvalFirstMatch` | engine/match/match.go:446-462 | the cascade loop collects exactly the rules the specification applies |
| `Matcher.CollectAll` | engine/match/match.go:470-488 | the matching counting rules, and the names the matching rules suppress |
| `Matcher.DropNamed` | engine/match/match.go:489-503 | the suppressed rules are dropped and the others kept in order |
| `Matcher.EvalAll` | engine/match/match.go:470-503 | suppression applied after collecting is the suppression of the specification |
| `Matcher.EvaluateAll` | engine/match/match.go:281-292 | the applied rules of every hit, in block order then rule order, at the hit's own cost or the request's |
| `Matcher.Buckets` | engine/match/match.go:302-312 | the buckets of all rules, in rule order |
| `Sharing.PathEndsAtTheQuery` | engine/match/match.go:39-41 | a request's path is what comes before the first question mark and its query what comes after |
| `Sharing.MatchedExactly` | engine/match/match.go:281-543 | a request is judged by exactly the counting rules, of the blocks a route or the lack of routes brings it to, that match what it carries and that no rule able to preempt them matches |
| `Sharing.MatchedInOrder` | engine/match/match.go:281-312 | the matched rules come in policy order, by block and by rule within it |
| `Sharing.BucketsCarryTheirAxes` | engine/match/match.go:546-571 | every bucket key of a matched rule reads back as that block and rule with one axis per counter, the one value the request carries for it; one bucket per rate, at the route's cost where it reads one and the request's otherwise |
| `Sharing.SharedExactly` | engine/match/match.go:546-571 | two requests a rule matches share its counter exactly when they carry the same value for everything it counts by |
| `AnyMethod.DeciderIff` | engine/match/match.go:192-252 | a route decides some method exactly when it admits the path and is open to a method no earlier route claimed |
| `AnyMethod.TargetByPath` | engine/match/match.go:192-252 | over all method strings: a block is admitted exactly when some method targets it; a capture is reported with a value when every targeting method yields it, absent when none does, undecided otherwise |
| `Compiler.BlockDecisionBuckets` | engine/compile/blocks.go:68-81 | the accumulator computes the block's worst case |
| `Compiler.CountDecisionBuckets` | engine/compile/blocks.go:59-65 | the sum over the blocks |
| `Compiler.BlockCompiler.constructor` | engine/compile/blocks.go:31-37 | compilation starts from the findings made so far |
| `Compiler.BlockCompiler.Fail` | engine/compile/blocks.go:83-91 | a finding is appended, blocking unless its reason is informational |
| `Compiler.BlockCompiler.CompileRate` | engine/compile/blocks.go:342-367 | a rate compiles exactly when its algorithm is known and its defaulted window passes the check, and into that window under the rule's prefix |
| `Compiler.BlockCompiler.CompileRateList` | engine/compile/blocks.go:305-320 | the rates compile exactly when each does and their periods differ |
| `Compiler.BlockCompiler.CompileRates` | engine/compile/blocks.go:300-337 | a bypass rule has no rates and a counting rule at least one |
| `Compiler.BlockCompiler.CompileCost` | engine/compile/template.go:75-101 | a cost compiles exactly when its source, name and default are legal, zero meaning one |
| `Compiler.BlockCompiler.CompileTemplate` | engine/compile/template.go:106-157 | a template's placeholders are accepted exactly when none is a built-in key and none repeats, and become captures |
| `Compiler.BlockCompiler.CompileRoute` | engine/compile/template.go:32-62 | a route compiles exactly when its path, kind, template and cost are legal |
| `Compiler.BlockCompiler.CompileRoutes` | engine/compile/template.go:15-30 | all routes, and the captures of all of them |
| `Compiler.BlockCompiler.CompileRule` | engine/compile/blocks.go:181-205 | a rule compiles exactly when its behaviour is known, a bypass outside FirstMatch names what it exempts from, and its rates compile |
| `Compiler.BlockCompiler.CheckReplaced` | engine/compile/blocks.go:162-179 | a replacement list is accepted exactly when it names other rules of the block, and not under FirstMatch |
| `Compiler.BlockCompiler.CheckReplacedRules` | engine/compile/blocks.go:162-179 | the same over all rules of a block |
| `Compiler.BlockCompiler.CompileRules` | engine/compile/blocks.go:93-126 | all rules, with distinct names |
| `Compiler.BlockCompiler.CompileBlock` | engine/compile/blocks.go:93-126 | a block compiles exactly when its mode, routes, rules and replacements are legal, into the rendered block |
| `Compiler.BlockCompiler.CompileBlocks` | engine/compile/blocks.go:31-49 | all blocks, at least one and with distinct names |
| `Compiler.CompiledIsSound` | engine/compile/compile.go:183-228 | every policy that compiles gives blocks with distinct names, checked windows of distinct periods per rule, costs in range, and a bound within the budget |
| `Compiler.CompiledRuleMeans` | engine/compile/blocks.go:181-367 | a compiled rule keeps its name, counters and replacements, enforces unless it says otherwise, matches exactly when all its predicates hold, and has a rate of the authored limit and period for each, GCRA by default, its capacity the burst or else the requests |
| `Compiler.CompiledRouteMeans` | engine/compile/template.go:15-62 | a compiled route admits its methods, or any, on its path, below its prefix or by its template, and the cost it reads defaults to one |
| `Compiler.CompiledIsProper` | engine/compile/compile.go:183-228 | what a policy compiles to is proper: known modes and kinds, rates exactly on the counting rules, replacements of other rules outside FirstMatch, placeholders distinct and not built in, the captures listed in order |
| `Compiler.SoundSnapshotsAreWritten` | engine/compile/compile.go:183-228 | the compiler refuses nothing it could have made: every sound and proper snapshot within the budget is what some policy compiles to |
| `Compiler.Compile` | engine/compile/compile.go:183-237 | all or nothing: a valid policy is compiled whole and anything else leaves a blocking finding and no blocks |
| `Guarantees.StaticBoundDominates` | engine/compile/blocks.go:51-81 | no request collects more buckets than the static worst case, for any blocks at all |
| `Guarantees.QueryCostIsTheLargest` | engine/match/match.go:63-116 | a query cost is the largest occurrence of its parameter, in range however long its digits are |
| `Guarantees.HitsAreSound` | engine/match/match.go:281-292 | the matched rules of a compiled snapshot are distinct and their buckets are their own checked windows |
| `Guarantees.FlattenIsJudgeable` | engine/match/match.go:302-312 | their flattened buckets have pairwise distinct keys and legal costs |
| `Guarantees.CompiledDecisionsReachTheStore` | engine/compile/blocks.go:51-81 | for every policy that compiles and every legal cost the decision is within the budget and the store's guard cannot fire |
| `Headers.StricterIsTransitive` | engine/engine.go:497-518 | the order is transitive in both modes, ratios compared by cross-multiplication |
| `Headers.StricterIsTotal` | engine/engine.go:497-518 | of two buckets with different keys exactly one is stricter, and none than itself |
| `Headers.StrictestIndex` | engine/engine.go:471-485 | the loop returns the index of the specification |
| `Headers.StrictestIsLeast` | engine/engine.go:471-485 | the choice is the least eligible bucket, and there is none exactly when none is eligible |
| `Headers.ChosenHasTheFewestLeft` | engine/engine.go:497-518 | on a request let through the chosen bucket has, in numbers, the fewest further requests at its cost, ties to the smaller key |
| `Headers.ChosenHasTheLongestWait` | engine/engine.go:497-518 | on a refusal the chosen bucket is one no wait cures if there is such a one, and else has the longest wait, ties to the smaller key |
| `Headers.ChoiceIgnoresOrder` | engine/engine.go:471-518 | the chosen bucket does not depend on the order of the buckets |
| `Headers.RatiosDoNotOverflow` | engine/engine.go:497-518 | the products compared, of any verdict of a checked window below 2^31 and any cost in range, fit an int64 |
| `Headers.RuleOf` | engine/engine.go:457-465 | the loop over the rules finds the owner of a flattened index |
| `Headers.OwnerContributed` | engine/engine.go:457-465 | that owner is the rule that contributed the bucket |
| `Headers.Aggregate` | engine/engine.go:401-434 | the headers are those of the least eligible enforcing bucket, and the unfittable flag is any enforcing bucket's |
| `Headers.RuleOutcomes` | engine/engine.go:352-381 | each rule is reported from its own stretch of the verdicts: refused when one of its buckets refuses, with every number of its strictest bucket, and zeros when it has none |
| `Engine.Admitted` | engine/store/store.go:172-185 | a request is admitted exactly when no enforcing verdict refuses |
| `Engine.Engine.Evaluate` | engine/engine.go:262-298 | one request against the counters: table, decision, error and rule outcomes are those of the specification |
| `Requests.DecisionIsExact` | engine/engine.go:262-298 | a request is let through exactly when every enforcing bucket has its cost left, so always when it collects none; let through and charging it spends the price of each bucket with room and of no other; otherwise no live counter changes; counters it does not name never change |
| `Requests.CostsAreDefaulted` | engine/engine.go:262-266 | a bucket costs what its route reads off the query, or the request's cost, one when it names none |
| `Requests.HeadersAreExact` | engine/engine.go:401-434 | the headers are those of one enforcing bucket and its rule, the one with the fewest further requests left or, refused, with the longest wait; their numbers are those of its window and of the counters left |
| `Requests.EffectiveWindowIsAnnounced` | engine/engine.go:423-429 | the effective window in the headers is the least wait after which the announced bucket takes more than Remaining |
| `Requests.RetryAfterCuresTheRequest` | engine/engine.go:393-434 | a refused request that comes again is let through exactly from the RetryAfter of its headers on, if nothing is charged meanwhile, and never when its cost was reported too large |
| `Requests.RuleOutcomeIsExact` | engine/engine.go:349-381 | a rule's outcome is about its own buckets: allowed when each has room, too costly when one is too small, its numbers those of the one that binds hardest |
| `Requests.RequestsConform` | engine/key/key.go:39-69 | every bucket of a compiled policy counts by the algorithm and period its key spells, so the results about runs hold of all requests |
| `Requests.EveryRequestFindsTendedCounters` | engine/engine.go:262-298 | after any run of requests under any compiled snapshots, resets and listings, a request finds counters the results above apply to |
| `Shadows.AppliedIgnoresShadows` | engine/match/match.go:446-503 | deleting the shadow rules deletes exactly them from what a block applies, in both modes |
| `Shadows.ConclusionIgnoresShadows` | engine/engine.go:401-434 | with the shadow buckets deleted the decision, its headers and the enforcing counters are the same |
| `Shadows.ShadowRulesDoNotInterfere` | engine/match/match.go:446-503 | for every compiled snapshot and every run of requests, deleting all shadow rules changes no decision, no header and no enforcing counter |
| `Applicability.EvaluateRule` | service/internal/management/applicability.go:267-315 | the loop answers the rule's state, and the gates of an undecided rule name exactly the keys and axes nothing is known about |
| `Applicability.Preemptors` | service/internal/management/applicability.go:403-424 | exactly the rules that can keep a rule from applying, in order |
| `Applicability.Preempt` | service/internal/management/applicability.go:366-395 | the annotation folds the preemptors in; a conditional one is so by the rule's own gates and those of its undecided preemptors |
| `Applicability.Annotate` | service/internal/management/applicability.go:251-263 | every rule of the block is annotated |
| `Applicability.AppliesIffUnpreempted` | engine/match/match.go:446-544 | the cascade applies a rule exactly when it counts, matches, and none of its preemptors matches |
| `Applicability.AnnotationIsSound` | service/internal/management/applicability.go:251-424 | a counting rule annotated always is applied for every completion of the scope, and one annotated never for none |
| `Applicability.ConditionIsExact` | service/internal/management/applicability.go:318-364 | a condition is satisfied exactly when every completion of the scope makes it hold, failed exactly when none does, and so undecided exactly when it can go either way |
| `Applicability.FullScopeDecides` | service/internal/management/applicability.go:251-424 | a scope that gives every key the rules name leaves no rule conditional, and annotates each by what the cascade does |
| `Applicability.AnnotationIsMonotone` | service/internal/management/applicability.go:158-190 | supplying more never takes a rule out of always or never |
| `Applicability.RespectIsNeeded` | service/internal/management/applicability.go:158-190 | declaring a guaranteed key absent, or with two values, turns a rule from always to never |
| `Applicability.MonotoneExactly` | service/internal/management/applicability.go:158-190 | supplying more is monotone for every list of rules exactly when each newly declared guaranteed key has one value |
| `Applicability.GuaranteesHold` | service/internal/management/applicability.go:158-190 | every request that reaches a block carries one value of each guaranteed key |
| `Applicability.ForTarget` | service/internal/management/applicability.go:202-248 | the scope narrowed to a path, or a refusal when it contradicts the path |
| `Applicability.NarrowedExactly` | service/internal/management/applicability.go:202-248 | narrowing sets the captures the path decides, forgets the identity keys it leaves open, and keeps the rest |
| `Applicability.RefusedPathHasNoRequest` | service/internal/management/applicability.go:202-248 | a path is refused only when no request of the described client goes to it |
| `Applicability.NarrowedScopeIsCompleted` | service/internal/management/applicability.go:192-248 | the narrowed scope is completed by the request of every method |
| `Applicability.PathAnnotationIsSound` | service/internal/management/applicability.go:192-263 | the answer for a path holds of every request of the described client to it, whatever the method |
| `Records.VisibleTwice` | service/internal/records/memory.go:301-327 | what is visible later is decided by what is visible now |
| `Records.AcceptAnswersExactly` | service/internal/records/memory.go:75-111 | which of the four answers an acceptance gets, each exactly when; a refused one changes nothing |
| `Records.StartedReadsBack` | service/internal/records/memory.go:75-111 | a started command reads back bound and open while records are kept, holding the domain for its lease, with its token's value handed over and gone |
| `Records.PutReadsBack` | service/internal/records/memory.go:258-275 | a token that was put is there with its value until its time, and nothing else changes |
| `Records.BusyForTheWait` | service/internal/records/memory.go:86-92 | a busy domain is busy for exactly the wait it answers |
| `Records.BatchReadsBack` | service/internal/records/memory.go:114-132 | a taken batch shows its progress and nothing else new |
| `Records.CommitReadsBack` | service/internal/records/memory.go:135-154 | a taken outcome is what every later reader finds while records are kept, with the domain released |
| `Records.FinalReadsBack` | service/internal/records/memory.go:157-179 | so is a finalised one, which discloses the progress the record had |
| `Records.AddressedResetIsExact` | service/internal/records/memory.go:182-211 | an addressed reset deletes exactly the keys it lists, a dry run none, and either reports how many there were |
| `Records.AddressedResetReplays` | service/internal/records/memory.go:186-191 | while it is retained the answer is replayed to whatever is asked under its key, and nothing changes |
| `Records.Memory.constructor` | service/internal/records/memory.go:56-63 | a new store holds no records, leases or documents |
| `Records.Memory.Held` | service/internal/records/memory.go:301-311 | an expired entry reads as absent and is dropped, which nothing notices |
| `Records.Memory.Lookup` | service/internal/records/memory.go:68-72 | the record and the lease as they are visible |
| `Records.Memory.Accept` | service/internal/records/memory.go:75-111 | an existing record, a busy lease and a missing token refuse in that order; otherwise token, record and lease change together |
| `Records.Memory.RunBatch` | service/internal/records/memory.go:114-132 | under the live fencing token of a live record the keys go and the progress is set; otherwise nothing changes and the lease is reported lost |
| `Records.Memory.Commit` | service/internal/records/memory.go:135-154 | under the same condition the outcome is set, retention restarts and the lease is released |
| `Records.Memory.Finalize` | service/internal/records/memory.go:157-179 | an open record without a lease is ended with its own progress; otherwise nothing changes |
| `Records.Memory.Exists` | service/internal/records/memory.go:240-255 | the walk over a key's subtree finds the key exactly when it is live and not empty, and ends |
| `Records.Memory.LiveOf` | service/internal/records/memory.go:215-234 | the nonempty keys that are live, in order |
| `Records.Memory.Reset` | service/internal/records/memory.go:182-211 | a bound key replays its count and answer; otherwise the live keys of any list are counted, deleted unless it is a preview, and recorded, in one step; the empty key is never found |
| `Records.Memory.Put` | service/internal/records/memory.go:258-263 | a token is stored until its time |
| `Records.Memory.Get` | service/internal/records/memory.go:266-275 | a token is found exactly while it is live |
| `RedisRecords.Redis.constructor` | service/internal/records/redis.go:160-162 | an empty store |
| `RedisRecords.Redis.RecordOf` | service/internal/records/redis.go:350-385 | the fields read one by one are the record of the specification |
| `RedisRecords.Redis.Lookup` | service/internal/records/redis.go:165-186 | the record and the lease as they are visible |
| `RedisRecords.Redis.Accept` | service/internal/records/redis.go:39-68 | the acceptance script makes the same transition as the in-process store |
| `RedisRecords.Redis.Unlink` | service/internal/records/redis.go:82-84 | the keys are dropped, and the live ones counted once each |
| `RedisRecords.Redis.Batch` | service/internal/records/redis.go:78-88 | the batch is lost exactly when the token does not hold the lease, and otherwise the keys go and the field is set, even with no record there; wherever a lease has an open record this is the in-process transition |
| `RedisRecords.Redis.Commit` | service/internal/records/redis.go:94-102 | the same of the commit script: lost exactly without the lease, otherwise outcome, retention and release, and the in-process transition under an open record |
| `RedisRecords.Redis.FinalizeScript` | service/internal/records/redis.go:109-122 | the compare-and-set ends an open record without a lease with the outcome it was given |
| `RedisRecords.Redis.Finalize` | service/internal/records/redis.go:267-291 | read, compare-and-set and read are one finalisation when nothing comes between |
| `RedisRecords.Redis.Reset` | service/internal/records/redis.go:130-150 | the addressed reset makes the same transition for any list, counting a repeated key once when it deletes and as often as named when it does not, and fails to replay exactly a record without a count |
| `RedisRecords.StoresAnswerAlikeExactly` | service/internal/records/memory.go:182-255 | the two stores answer an addressed reset alike in every state exactly when the list has no empty key and, unless it is a dry run, no repeat |
| `Tallies.DisclosureIsExact` | service/internal/management/sweep.go:261-282 | a tally has exact totals, an exact count for every rule, and the first hundred keys, cut exactly when there are more |
| `Consistency.StepKeeps` | service/internal/management/resets.go:122-363 | under the three exactness conditions every step of every party, late copies of batches included, keeps the invariant that ties leases, records, walkers and retries together |
| `Consistency.RunKeeps` | service/internal/management/resets.go:122-363 | so does every run |
| `Safety.LeaseHasAnOpenRecord` | service/internal/records/records.go:131-154 | in every reachable state a lease is held by the fencing token of a record that has no outcome and outlives it |
| `Safety.LeasesAreBacked` | service/internal/records/redis.go:78-102 | so wherever the protocol brings them the batch and commit scripts are the in-process transitions |
| `Safety.AcceptedOnce` | service/internal/records/memory.go:75-111 | within retention a record key is accepted once; every other acceptance is answered with the first one's binding |
| `Safety.OutcomeIsFinal` | service/internal/records/memory.go:135-179 | a recorded outcome and the whole record around it never change while retained |
| `Safety.FencingNeverReturns` | service/internal/records/memory.go:114-132 | from any reachable state a fencing token seen without the lease never holds it again: no batch it sent, however late, deletes or counts, and none of its commits is taken |
| `Safety.OutcomeEndsTheFencing` | service/internal/records/memory.go:135-179 | in every reachable state a recorded outcome has ended its fencing token in that sense |
| `Safety.RefusalSpendsNothing` | service/internal/records/memory.go:80-98 | an acceptance starts exactly when the key is unbound, the domain free and the token present, and a refused one changes nothing |
| `Safety.TokenIsSpentOnce` | service/internal/records/redis.go:39-68 | over any run in which no copy of a token's write runs after it was spent, the token lets at most one command start |
| `Disclosure.CommittedIsWhatRan` | service/internal/management/sweep.go:193-225 | in every run what a command is said to have committed is what the batches that ran for it contained, a resent batch counted once |
| `Disclosure.DisclosedProgressIsExact` | service/internal/management/resets.go:173-363 | under the three exactness conditions every recorded outcome, by success, deadline, failure or a retry's finalisation, counts exactly the keys of the batches that ran for it, in total and by rule |
| `Deletions.BatchDeletesExactly` | service/internal/management/sweep.go:206-224 | a batch the store takes, of a walker that executes, removes exactly the counters kept in it, whichever copy of it runs; any other batch removes nothing |
| `Deletions.OnlyExecutedBatchesDelete` | service/internal/management/sweep.go:206-224 | no step of a preview changes a counter, and no claim, outcome, retry or finalisation does |
| `Deletions.CountedWasDeleted` | service/internal/management/sweep.go:193-225 | every key an executing command counts as reset was absent right after its batch ran |
| `Deletions.DeletedIsCounted` | service/internal/management/sweep.go:193-225 | every counter a batch removes is one its command counts |
| `Deletions.ResetIsDeletion` | service/internal/management/resets.go:173-363 | what a recorded outcome says was reset is the number of keys in the batches that ran, each absent right after its batch, and nothing for a preview |
| `Conditions.LateBatchIsNotDisclosed` | service/internal/management/resets.go:239-289 | a run in which a batch runs after its walker read the record back, and the outcome says nothing was reset after one key was |
| `Conditions.ReorderedBatchIsNotDisclosed` | service/internal/records/redis.go:78-88 | a run in which a copy of the first batch runs after the second, and the walker records one key of two |
| `Conditions.ReorderedBatchMisleadsARetry` | service/internal/records/redis.go:78-88 | such a run in which even a retry answered at once records one key of two |
| `Conditions.SlowRetryDisclosesWrongly` | service/internal/records/redis.go:267-291 | a run in which a retry slower than a lease lifetime records that nothing was reset after one key was |
| `Conditions.OutcomesAreExactIff` | service/internal/settings/settings.go:191-209 | outcomes are exact in every run exactly when retries finalise within a lease lifetime, no copy of a batch runs after a later one, and no batch first runs after its walker read the record back |
| `Conditions.RemintedTokenStartsTwo` | service/internal/records/redis.go:330-335 | a run in which a copy of a token's write runs after the token was spent, and a second command starts with it |
| `Conditions.TokensAreSingleUseIff` | service/internal/records/redis.go:330-335 | tokens are single-use in every run exactly when no copy of a token's write runs after it was spent |
| `Sweep.BehavesTruthfully` | service/internal/management/sweep.go:85-148 | a walk that is between two batches has counted exactly the ones that ran |
| `Sweep.UnfilteredKeepsAll` | service/internal/management/sweep.go:193-204 | without the limited filter everything in the batches is kept |
| `Sweep.FilterKeepsRefused` | service/internal/management/sweep.go:230-257 | with it, exactly the keys of a batch that the peek of that batch refuses |
| `Sweep.Sweeper.CountKept` | service/internal/management/sweep.go:206-212 | what is kept is counted, and listed for deletion exactly when the walk executes |
| `Sweep.Sweeper.Send` | service/internal/management/sweep.go:217-224 | a call carries the keys to delete and the count; one that is answered ran, one that is not ran or did not, and the walk fails either way |
| `Sweep.Sweeper.Dispatch` | service/internal/management/sweep.go:193-225 | the batch sent is what was kept, with its keys to delete exactly when the walk executes and the count so far |
| `Sweep.Sweeper.constructor` | service/internal/management/sweep.go:65-83 | a walk starts with nothing counted |
| `Sweep.Sweeper.CountOne` | service/internal/management/sweep.go:261-273 | one key is counted against its rule and, while there is room, into the sample |
| `Sweep.Sweeper.Refusing` | service/internal/management/sweep.go:230-257 | exactly the counters that would refuse the next request are kept, in order |
| `Sweep.Sweeper.CommitBatch` | service/internal/management/sweep.go:193-225 | an answered batch commits exactly what was kept of it; a failed one leaves the walk failed, having committed that or nothing |
| `Sweep.Sweeper.WalkKey` | service/internal/management/sweep.go:132-145 | one key is judged; a full batch is committed, and what ran is what the judgements of the closed batches kept, filtered or not |
| `Sweep.Sweeper.Walk` | service/internal/management/sweep.go:126-148 | the closed batches and the open one are exactly the considered keys so far, in order and in full batches; a deadline falls between two keys |
| `Sweep.Sweeper.Run` | service/internal/management/sweep.go:90-121 | the considered keys of all pages are cut into full batches, and what ran is the concatenation of what was kept of each, under the filter too: all of them in a completed walk, a prefix in any other |
| `Sweep.Sweeper.Conclude` | service/internal/management/resets.go:173-305 | success and deadline record the walker's own count, which is exact; any other failure records what the record shows, or nothing when it cannot be read |
| `Listing.ScanIsExact` | engine/store/memory/memory.go:146-170 | a store step returns, in order, all live keys above its cursor, or all up to its next one |
| `Listing.PageWalk.constructor` | service/internal/management/counters.go:262-262 | a page starts at its cursor with nothing taken |
| `Listing.PageWalk.Take` | service/internal/management/counters.go:210-217 | every key of a step is counted and the admitted ones kept in order |
| `Listing.PageWalk.Step` | service/internal/management/counters.go:269-272 | a step asks for no more than the room left |
| `Listing.PageWalk.SelectCandidates` | service/internal/management/counters.go:254-279 | a page is whole steps along the store's cursors, within the page size, the scan budget and the step cap, and resumes at the store's own cursor |
| `Listing.ListingIsComplete` | service/internal/management/counters.go:239-279 | under any interleaved traffic a finished listing returns every admitted key that stays live exactly once, in increasing order |
| `Listing.PagesAreBounded` | service/internal/management/counters.go:219-237 | every page keeps its bounds, lists only admitted keys, and can be resumed when it is not the last |
| `Listing.ResumeIsEmptyExactly` | service/internal/management/counters.go:221-237 | the resume cursor of a first page is empty exactly when the page size is below one |
| `Listing.ListingEnds` | service/internal/management/counters.go:239-279 | once the store stops growing the listing has at most one page more than there are keys |
| `TokenCache.StoreKeepsSizes` | engine/tokencache.go:139-153 | whatever the budget, inserting keeps the entry bounds and the byte count |
| `TokenCache.StoreKeepsBounds` | engine/tokencache.go:139-153 | inserting keeps the byte bounds exactly when the entry fits a generation's bytes |
| `TokenCache.BoundsFitCapacity` | engine/tokencache.go:110-117 | both generations together hold at most the capacity and the byte budget |
| `TokenCache.HitSurvives` | engine/tokencache.go:119-153 | while bytes force no rotation, a token just hit survives the next half capacity of insertions of others |
| `TokenCache.Extractor.constructor` | engine/tokencache.go:110-117 | a new cache is empty, with the bounds its capacity and budget give |
| `TokenCache.Extractor.Insert` | engine/tokencache.go:139-153 | the generation rotates exactly when it is full by entries or bytes |
| `TokenCache.Extractor.Lookup` | engine/tokencache.go:121-135 | a hit in the previous generation is promoted, and every hit ends in the current one |
| `TokenCache.Extractor.CachedExtract` | engine/tokencache.go:163-183 | the cached extraction returns what extraction returns, in any sequence of calls, and leaves a token that can be kept in the current generation |
| `Fit.Compile` | operator/internal/policy/compile.go:127-248 | every policy's outcome, served spec and bundle |
| `Fit.LastGoodIsServed` | operator/internal/policy/compile.go:187-248 | a generation that compiles and fits is served, and still served and saved through any number of later generations that fail to compile, are unreadable or do not fit |
| `Fit.NothingIsServed` | operator/internal/policy/compile.go:187-248 | a policy that can use neither its own spec nor a saved one of its own serves nothing, and reports a saved one as lost |
| `Fit.MovedDomains` | operator/internal/policy/fit.go:50-70 | exactly the domains whose bundle changed, largest payload first and then by name |
| `Fit.FitState` | operator/internal/policy/fit.go:41-95 | moved domains are set back until the state fits, none while a larger payload is not, and exactly the ones set back are reported too large |
| `Fit.SetBackIsLeast` | operator/internal/policy/fit.go:72-95 | domains are set back one at a time while the state is over the limit and no longer |
| `Fit.UnmovedDomainsAreUntouched` | operator/internal/policy/fit.go:50-62 | a domain whose bundle did not move comes out as compilation left it |
| `Fit.CompilationIsStable` | operator/internal/policy/compile.go:187-248 | compiling over the fitted state compiles to the same state |
| `Fit.FitIsAFixedPoint` | operator/internal/policy/fit.go:17-95 | compiling and fitting the state they just produced produces it again |
| `Fit.FitIsDeterministic` | operator/internal/policy/fit.go:28-32 | two passes over the same input reach the same state |
| `Fit.FitKeepsTheLimit` | operator/internal/policy/fit.go:41-95 | if the saved state fits and every saved generation is the spec read of it, the result fits |
| `Fit.UnpinnedReadOverflows` | operator/internal/policy/fit.go:57-60 | otherwise some sizes make a saved state that fits come out over the limit |
| `Fit.RepairedReadOverflows` | operator/internal/policy/fit.go:57-60 | an input of that kind: a pruned read of a generation replaced by its full spec |

## Left out

- The decision script of the shared counter store: its text is not part of this model, and the in-process store stands for it.
- Duplicate keys from a live scan of the shared store, clocks that run backwards, and policies whose name differs from their domain.
- Compiler.BlockCompiler.CompileCost: whether a parameter name has the required pattern and length is given as a flag.
- Compiler.BlockCompiler.CompileTemplate: a template arrives split into segments, so empty and malformed segments are not judged, and the notice about a shadowed key is not made.
- Compiler.BlockCompiler.CompileRoute: unknown and repeated HTTP methods are not judged.
- Compiler.BlockCompiler.CompileRoutes: nor are they over all routes.
- Compiler.BlockCompiler.CompileRule: predicates and counter axes pass through as they are.
- Compiler.BlockCompiler.CompileBlock: the informational finding about costs above a capacity is not made.
- Compiler.Compile: findings about predicates, key names, literal segments, HTTP methods, mappings and groups enter as a list.
- Engine.Engine.Evaluate: a request arrives with its identity keys extracted; extraction, its skips and the names of the keys it found are not modelled.
- Sorting is modelled as insertion in order, and the retained order is what is proved.
- Records and documents of the shared store live in separate maps rather than in one keyspace; the key layouts keep them apart.
- RedisRecords.Redis.Lookup: takes the reads of its pipeline at one instant; `Protocol` takes them as two steps.
- Sweep.Sweeper.Run: which keys a selection keeps is a given function of the key, so selectors and the axis lookup are not modelled.
- Sweep.Sweeper.Send: copies of a batch that run after its call has ended are steps of `Protocol`, not of the walk.
- TokenCache.HitSurvives: counts insertions of other tokens and does not follow rotations forced by bytes.
- Fit.FitKeepsTheLimit: the premise is exact over all ways of measuring sizes, not for one fixed measure.
- Whether a conditional rule can really go both ways: each of its conditions can, but the analysis does not read several of them together.
- JSON, compression, SHA-256, base64 and token decoding: hashes are taken as injective and codecs as lossless.
- Controllers, endpoint probing, status writing, servers, error rendering, metrics and the log sampler.
