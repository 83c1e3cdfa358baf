# Verification of the DigitalOcean exporter's core

A Dafny model of the parts of the exporter that keep state from one refresh to
the next, run concurrently, or decide under a deadline, with proofs about every
input, every interleaving and every run of refreshes. `dafny verify
dfyconfig.toml` checks all of it.

How to read it: a class or a method models a Go type or function that works by
changing things and is proved against a function or predicate that says what it
has to achieve; the lemmas beside it say what that is worth over whole runs.

| module | models |
|---|---|
| `FanOut` | the monitoring collectors' worker pool as a step machine, every interleaving of dispatcher, workers and cancellation, and the slice the workers fill in place |
| `Rotation` | the rotating starting point over whole runs of refreshes: who gets a turn, how often, and when somebody never does |
| `DropletMetrics`, `Decimal`, `Readings` | the droplet monitoring collector: listing, rotation, fan-out, merge, report, and the history behind its snapshot |
| `Deadlines` | which courses of a fan-out a configuration allows: the refresh's deadline, the limiter, and the timeouts a single request runs under |
| `EarlyErrors` | what a refresh's success report is worth when a droplet can be starved before the deadline |
| `Measuring`, `TimeSeries` | one resource's measurement: required and extended metric requests, newest samples |
| `RetryTransport`, `Durations` | the retrying HTTP transport, and its waits in 64-bit nanoseconds |
| `Loops`, `Stagger`, `Scheduler` | the scheduler: its loops as a timed transition system, the staggered starts, the success and readiness books |
| `Paging`, `Databases` | the two list walks: by links with duplicates dropped, and without links up to the first repeat |
| `Filters`, `Droplets` | the tag and region filter and the tag-scoped listing that has to agree with it |
| `Spaces` | bucket discovery, its region cache and the snapshot keyed by name and region |
| `Projects`, `Urns` | resource counts per project and type |
| `Histories` | what a run of refreshes last learned about a key while it stayed listed |
| `Arithmetic`, `Sequences`, `Wrappers` | division facts, distinctness and an option type |

## What the environment is

The API, the clock, the rate limiter and the context are parameters: a server is
a function from request number and page to a reply, a fan-out is driven by an
arbitrary sequence of enabled events, a round trip by an arbitrary sequence of
turns. What is assumed of them is always a named predicate.

- `Deadlines.Config`: whether the limiter is on, how long a request may take
  (`cmd/digitalocean_exporter/main.go:100`, 30 s by default), how long connecting
  may take (a timeout of the base transport, `client.go:172`), and how long a
  refresh may take (`internal/config/config.go:417-419`, 2 min by default). A
  dial divides its time among the addresses of a host and can report the first
  one's timeout, so `connectTimeout` stands for the shortest time in which
  connecting to one address can fail this way. A request that
  overruns its own timeout, or that the limiter will not hold past it, fails with
  an error that is a deadline exceeded; that is what Go's `net` and `net/http`
  promise, which are not part of this model. The refresh's timeout is positive,
  as the configuration demands (`internal/config/config.go:594-603`).
- `Deadlines.Config.EarlyErrors`: the limiter is on, or one of the two request
  timeouts is shorter than the refresh's. With the defaults it holds.
- `FanOut.Lawful`: a measurement finished before the context ended is not a
  context error, and one begun after it ended is. `Deadlines.PossibleIsLawful`
  derives it for every configuration without early errors. Only the counting
  results need it; slots, order, termination and merging do not.
- `Paging.Ends`: the walk reaches a last page, a failure or the end of its
  context within some number of requests. `Paging.EndlessListNeverEnds` shows
  that the loop alone guarantees no such number.
- `Databases.Draws`: the ids the endpoint serves come from some finite set.
- `RetryTransport.LimiterContract`: the limiter refuses a request only when its
  context is done or has a deadline.
- `RetryTransport.Clock`: time does not run backwards and an uninterrupted wait
  is not shorter than it was asked to be.
- Locating a bucket, measuring it, looking up a cluster's details or walking a
  project's resources has one answer within one refresh.

## Where the code and its promises part

The model follows the code. Where a promise holds only sometimes, the exact
condition is proved.

- **Rotation covers the fleet** (`dropletmetrics.go:22-27`,
  `docs/configuration/monitoring-api.md:65-72`) — true of every run exactly when
  there is at most one droplet, or the pool has one worker and the configuration
  has no early errors (`Rotation.CoverageNeedsASingleWorker`). The cursor moves
  by how many droplets were reached, not past those that were: with two workers,
  or after an early error, a later droplet can be reached while an earlier one is
  starved, and the rotation can pass over the same droplet in every refresh
  (`Rotation.TwoWorkersCanStarveADroplet`,
  `Rotation.EarlyErrorsCanStarveADroplet`). What it does need is that each
  refresh reaches a prefix of its order: over any run of such refreshes, whatever
  the pool and the configuration, the reached segments tile the circle and n
  turns in all give every droplet one (`Rotation.PrefixesTileTheCircle`,
  `Rotation.PrefixesCoverTheFleet`). Every course does so under that very
  condition only (`Rotation.PrefixesNeedASingleWorker`).
- **Only a refresh that got through the whole list is a success**
  (`dropletmetrics.go:183-186`) — true exactly when the configuration has no
  early errors, or there is at most one droplet
  (`EarlyErrors.SuccessCoversTheFleetWithoutEarlyErrors`): a limiter refusal
  (`client.go:271-289`) and a request that overruns a timeout of its own both
  count as the refresh running out of time, while its context is not done.
- **A refresh that runs out of time keeps the previous snapshot**
  (`docs/configuration/monitoring-api.md:56-57`) — the code merges first and
  then fails (`dropletmetrics.go:174-176`). A merge keeps the snapshot exactly
  when every result says of its droplet what its entry said already, in the same
  order (`DropletMetrics.MergeKeepsTheSnapshot`); if nothing was measured, when
  all of it was down already in the order of this refresh
  (`DropletMetrics.UnmeasuredKeepsTheSnapshot`). However a refresh is cut short,
  it keeps the snapshot exactly when both the snapshot and the listing are empty
  (`DropletMetrics.CutShortKeepsNothing`).
- **A Retry-After is honoured in full, however long it is**
  (`docs/configuration/index.md:224`) — exactly up to 9 223 372 036 seconds;
  beyond, the product wraps (`Durations.SecondsAreHonouredUpToTheRange`) — and
  exactly up to the 292 years a difference of times holds
  (`Durations.DatesAreHonouredUpToTheRange`).
- **The fallback wait doubles up to ten seconds** (`client.go:353-357`) — on
  every attempt that may be retried exactly when the budget is at most 35
  attempts (`Durations.BackoffDoublesUpTo35Attempts`); the default is 3.
- **A bucket that cannot be measured keeps whatever it last reported**
  (`spaces.go:135-138`) — exactly when it is looked for in the region it last
  reported from (`Spaces.FiguresAreKeptWithinTheRegion`): the snapshot is keyed
  by name and region, and a bucket that is down is located again.
- **Every offset is different** (`scheduler.go:189-192`) — exactly when the
  window has a nanosecond per collector, as the comment itself says
  (`Stagger.OffsetsAreDistinctWhenTheWindowDivides`).
- **The repeat is where the database list ends** (`databases.go:204-208`) — the
  walk lists each admitted cluster once exactly when no admitted cluster after
  the first repeat is new
  (`Databases.ListedWholeExactlyWhenNothingNewFollows`). A list that merely
  shifted between two requests loses what follows: of 201 clusters the last, when
  one is created between the two pages (`Databases.OneClusterIsLost`).

## Model

| member | source | states |
|---|---|---|
| `FanOut.StepInv` | internal/collector/dropletmetrics/dropletmetrics.go:309-344 | Every step of dispatcher, worker or context keeps: dispatched indices are a prefix, an in-flight index is one worker's alone and its slot still empty, a filled slot carries its own reference, a worker leaves only after the queue is closed |
| `FanOut.SlotsAreWrittenOnce` | internal/collector/dropletmetrics/dropletmetrics.go:314-342 | A slot of the results, once filled, holds the same result to the end of any run: workers and the final filling never overwrite each other |
| `FanOut.RunInv` | internal/collector/dropletmetrics/dropletmetrics.go:309-344 | The invariant holds after every run of events from a state that has it |
| `FanOut.Final` | internal/collector/dropletmetrics/dropletmetrics.go:337-343 | When the function returns every slot is filled |
| `FanOut.EveryReferenceGetsItsResult` | internal/collector/dropletmetrics/dropletmetrics.go:309-344 | For every interleaving, one result per reference, in order, under its own reference; everything from the first index never handed out is a context error, and there is such an index only if the context ended |
| `FanOut.SlotHoldsItsMeasurement` | internal/collector/dropletmetrics/dropletmetrics.go:320-323 | In any run, when a worker that has index i finishes, what its measurement came back with is what slot i holds in the end, under reference i |
| `FanOut.MeasuredExactlyOnce` | internal/collector/dropletmetrics/dropletmetrics.go:320-333 | Every index handed out is measured exactly once |
| `FanOut.HandedOutInOrder` | internal/collector/dropletmetrics/dropletmetrics.go:316-336 | A busy worker has the index that was next when it was handed one, and is late exactly if the context had ended by then; there are as many workers as the concurrency, or as references if fewer |
| `FanOut.CanEndAtAnyMoment` | internal/collector/dropletmetrics/dropletmetrics.go:329-336 | The context can end in every reachable state before the function returns |
| `FanOut.EitherArmCanBeTaken` | internal/collector/dropletmetrics/dropletmetrics.go:330-335 | Once it has ended, with an idle worker the select can still hand out an index, and can give up |
| `FanOut.AnyOutcomeIsPossible` | internal/collector/dropletmetrics/dropletmetrics.go:320-322 | A measurement in flight can come back with anything at any time |
| `FanOut.FillRest` | internal/collector/dropletmetrics/dropletmetrics.go:340-342 | The last loop fills exactly the slots never handed out, each with its own reference and a context error, and touches no other |
| `FanOut.Perform` | internal/collector/dropletmetrics/dropletmetrics.go:318-343 | One step on the workers and the slice in place is the step of the machine |
| `FanOut.MeasureAll` | internal/collector/dropletmetrics/dropletmetrics.go:309-344 | The slice filled in place ends as the run's results, every slot under its own reference and with what its own measurement came back with |
| `FanOut.StepDescends` | internal/collector/dropletmetrics/dropletmetrics.go:327-338 | Every step decreases a measure, whichever is taken |
| `FanOut.RunsAreBounded` | internal/collector/dropletmetrics/dropletmetrics.go:327-338 | No run is longer than 2n + workers + 3 steps: the wait for the workers always ends |
| `FanOut.NoDeadlock` | internal/collector/dropletmetrics/dropletmetrics.go:327-338 | Short of returning, some step other than cancellation is always possible |
| `FanOut.LawfulStep` | internal/collector/dropletmetrics/dropletmetrics.go:214-221 | Every lawful step keeps: before the end nothing is starved and a full pool holds the newest index; afterwards at most one index per worker is missed, and one per worker only if the newest one is |
| `FanOut.FewStarvedBelowReached` | internal/collector/dropletmetrics/dropletmetrics.go:187-221 | For every lawful interleaving, at most one fewer than the workers of the results below the count reached are starved; an uncancelled run starves none |
| `FanOut.OneWorkerReachesAPrefix` | internal/collector/dropletmetrics/dropletmetrics.go:300-304 | With one worker the results not starved are exactly the first `reached` |
| `FanOut.CountFromUnreached` | internal/collector/dropletmetrics/dropletmetrics.go:188-200 | The reached and the starved results together are all results, on every prefix |
| `Deadlines.PossibleIsLawful` | internal/doclient/client.go:127-133 | Whatever the times of its events, a course that a configuration without early errors allows starves nothing before the context ends, and all that is begun after it |
| `Deadlines.LawfulIsPossible` | internal/doclient/client.go:127-133 | Every such course is one any configuration allows |
| `Deadlines.StarvedFirstRuns` | internal/doclient/client.go:271-289 | A configuration with early errors allows a course that starves the first droplet while the context lives, whatever lawful course follows |
| `Rotation.WrapIsRemainder` | internal/collector/dropletmetrics/dropletmetrics.go:233-250 | The model's wrap-around is the remainder the code takes |
| `Rotation.RotatedAt` | internal/collector/dropletmetrics/dropletmetrics.go:227-239 | Rotation puts every droplet at its distance from the cursor around the circle, and keeps the length |
| `Rotation.TurnAdvances` | internal/collector/dropletmetrics/dropletmetrics.go:241-251 | Advancing by what was reached brings every droplet that much closer; one it moved past goes to the end |
| `Rotation.PrefixRound` | internal/collector/dropletmetrics/dropletmetrics.go:168-177 | One refresh that reaches a prefix of its order: a droplet had its turn exactly if its place is below the count reached, and its next place follows |
| `Rotation.PrefixesTileTheCircle` | internal/collector/dropletmetrics/dropletmetrics.go:187-251 | Over any run of refreshes each of which reaches a prefix of its order, with any pool: with S turns in all a droplet had exactly the turns place, place + n, place + 2n, ... below S |
| `Rotation.PrefixesAreFair` | internal/collector/dropletmetrics/dropletmetrics.go:187-251 | In such a run every droplet had S / n turns, rounded down or up |
| `Rotation.PrefixesCoverTheFleet` | internal/collector/dropletmetrics/dropletmetrics.go:22-27 | In such a run every droplet had a turn once there were n in all |
| `Rotation.UncutReachesAPrefix` | internal/collector/dropletmetrics/dropletmetrics.go:223-226 | A course without early errors that is not cut short reaches everybody, and so a prefix, whatever the pool |
| `Rotation.ShortRoundReachesAPrefix` | internal/collector/dropletmetrics/dropletmetrics.go:227-239 | A prefix is also reached by a course that is cut short after its first droplet, with a pool of any size |
| `Rotation.PrefixesNeedASingleWorker` | internal/collector/dropletmetrics/dropletmetrics.go:300-304 | Every course of a configuration reaches a prefix if and only if there is at most one droplet, or one worker and no early errors |
| `Rotation.OneWorkerRound` | internal/collector/dropletmetrics/dropletmetrics.go:168-177 | With one worker and no early errors a refresh does |
| `Rotation.OneWorkerTilesTheCircle` | internal/collector/dropletmetrics/dropletmetrics.go:187-251 | With one worker and no early errors every run tiles the circle |
| `Rotation.QuotientIsDivision` | internal/collector/dropletmetrics/dropletmetrics.go:241-251 | The quotient the fairness bound uses is integer division |
| `Rotation.OneWorkerIsFair` | internal/collector/dropletmetrics/dropletmetrics.go:22-27 | With one worker and no early errors every run is fair |
| `Rotation.TwoWorkersCanStarveADroplet` | internal/collector/dropletmetrics/dropletmetrics.go:187-251 | With two or more workers and any configuration, for any droplet and any number of refreshes there is a run, one turn handed out per refresh, in which that droplet never has one |
| `Rotation.EarlyErrorsCanStarveADroplet` | internal/collector/dropletmetrics/dropletmetrics.go:187-251 | With early errors and two or more droplets the same is true of any pool, one worker included |
| `Rotation.CoverageNeedsASingleWorker` | internal/collector/dropletmetrics/dropletmetrics.go:22-27 | The promise that n turns in all give every droplet one holds if and only if there is at most one droplet, or one worker and no early errors |
| `EarlyErrors.RefusedRoundSucceeds` | internal/doclient/client.go:271-289 | With the limiter on there is a course that measures one droplet, starves all others, and reports success |
| `EarlyErrors.TimedOutRoundSucceeds` | internal/doclient/client.go:169-177 | With any early error, a request timeout shorter than the refresh's included, there is a course that starves one droplet and reports success before the deadline |
| `EarlyErrors.SuccessCoversTheFleetWithoutEarlyErrors` | internal/collector/dropletmetrics/dropletmetrics.go:183-212 | A reported success means everybody had a turn if and only if the configuration has no early errors or there is at most one droplet |
| `DropletMetrics.ListedIdsAreDistinct` | internal/collector/dropletmetrics/dropletmetrics.go:257-285 | Whatever a walk is served, the references to measure have distinct ids, as strings |
| `DropletMetrics.ListedAreAskedFor` | internal/collector/dropletmetrics/dropletmetrics.go:257-294 | The references listed are exactly those of the first copy served of every droplet that carries an asked-for tag, lies in an asked-for region and, with agentOnly, has the monitoring feature, under its decimal id and its name |
| `Decimal.SprintInjective` | internal/collector/dropletmetrics/dropletmetrics.go:282 | Two droplet ids that print alike are equal |
| `Decimal.SprintReadsBack` | internal/collector/dropletmetrics/dropletmetrics.go:282 | The printed id reads back, digit by digit, as the number, with a minus sign if it is negative |
| `DropletMetrics.ReturnedIdsAreDistinct` | internal/collector/dropletmetrics/dropletmetrics.go:227-344 | Distinct ids stay distinct through rotation and fan-out |
| `DropletMetrics.SnapshotHoldsExactlyTheAdmitted` | internal/collector/dropletmetrics/dropletmetrics.go:168-177 | After any history, however pages shift and wherever refreshes are cut, the snapshot holds each droplet the last successful listing admitted exactly once under its id and name, and nothing else |
| `DropletMetrics.SnapshotHoldsTheLastListing` | internal/collector/dropletmetrics/dropletmetrics.go:380-403 | After any history the entries are those of the last successful listing, in its order, and up says exactly whether that refresh measured the droplet |
| `DropletMetrics.NothingBeforeTheFirstListing` | internal/collector/dropletmetrics/dropletmetrics.go:405-406 | Until a listing succeeds the snapshot is empty |
| `DropletMetrics.SnapshotIdsAreDistinct` | internal/collector/dropletmetrics/dropletmetrics.go:383-403 | No reachable snapshot holds an id twice |
| `DropletMetrics.EnteredStep` | internal/collector/dropletmetrics/dropletmetrics.go:383-403 | One merge: an id is present exactly if listed, fresh if measured, its previous reading marked down otherwise, nothing if it had none |
| `DropletMetrics.FinishedIsInTheSnapshot` | internal/collector/dropletmetrics/dropletmetrics.go:174-175 | What a measurement came back with is, after the merge, the reading of its droplet, which is up |
| `DropletMetrics.SnapshotRemembersTheLastReading` | internal/collector/dropletmetrics/dropletmetrics.go:163-177 | In every reachable state a droplet's reading is that of the last refresh that measured it while it has been listed ever since, and empty if there is none, cut-short refreshes and failed listings included |
| `DropletMetrics.MergeKeepsTheSnapshot` | internal/collector/dropletmetrics/dropletmetrics.go:383-403 | A merge leaves the snapshot as it is if and only if the results name the same droplets in the same order, those that failed were down already, and those measured were up with that very reading |
| `DropletMetrics.UnmeasuredKeepsTheSnapshot` | internal/collector/dropletmetrics/dropletmetrics.go:383-403 | A refresh that measured nothing leaves it if and only if it named these droplets in this order with none up |
| `DropletMetrics.ShortRoundChangesTheSnapshot` | internal/collector/dropletmetrics/dropletmetrics.go:163-177 | A refresh cut short after its first droplet changes any snapshot whose first entry is down, and reports that it was cut short |
| `DropletMetrics.CutShortKeepsNothing` | docs/configuration/monitoring-api.md:56-57 | Every refresh that is cut short keeps the snapshot if and only if there is nothing in it and nothing to measure |
| `DropletMetrics.Choose` | internal/collector/dropletmetrics/dropletmetrics.go:274-283 | The droplets kept are those the filter admits and, with agentOnly, carrying the monitoring feature, in order |
| `DropletMetrics.Collector.constructor` | internal/collector/dropletmetrics/dropletmetrics.go:139-151 | Concurrency is raised to one; the collector starts empty |
| `DropletMetrics.Collector.ListDroplets` | internal/collector/dropletmetrics/dropletmetrics.go:257-285 | The references of the admitted droplets of the right endpoint's walk, or none when it fails |
| `DropletMetrics.Collector.Rotate` | internal/collector/dropletmetrics/dropletmetrics.go:227-239 | The listing from the cursor on, then the rest |
| `DropletMetrics.Collector.Advance` | internal/collector/dropletmetrics/dropletmetrics.go:244-251 | The cursor moves by the count reached, modulo the total, and stays for an empty listing |
| `DropletMetrics.Collector.Merge` | internal/collector/dropletmetrics/dropletmetrics.go:383-403 | The loop's new snapshot is the merge the history lemmas are about |
| `DropletMetrics.ReportedIsRight` | internal/collector/dropletmetrics/dropletmetrics.go:179-212 | By the results alone: a success exactly if the context is not done and something was measured or there was nothing to measure; cut short with the number measured if it is done; an error naming all if nothing was measured |
| `DropletMetrics.Collector.Report` | internal/collector/dropletmetrics/dropletmetrics.go:187-212 | The cursor advances by the results not starved whatever is reported, and the report is the right one for the results |
| `DropletMetrics.Collector.Measure` | internal/collector/dropletmetrics/dropletmetrics.go:174-176 | Rotating, fanning out, merging and reporting, in that order, for every interleaving |
| `DropletMetrics.Collector.Refresh` | internal/collector/dropletmetrics/dropletmetrics.go:168-177 | One refresh: a failed listing changes nothing, otherwise the merge happens whatever the report says; snapshot and cursor stay what the history says |
| `Measuring.Draft.Fetch` | internal/collector/loadbalancermetrics/loadbalancermetrics.go:345-372 | One metric request appends the points of its samples under the resource's identity and raises the sample time, or changes nothing and fails |
| `Measuring.FetchRequired` | internal/collector/dropletmetrics/dropletmetrics.go:346-378 | The required part fails exactly if some request failed, with the first failure's own reason, and otherwise holds the points of all, in order |
| `Measuring.FetchExtended` | internal/collector/loadbalancermetrics/loadbalancermetrics.go:331-341 | The extended part gives up exactly if some request ran out of time; any other failure only adds nothing |
| `Measuring.Measure` | internal/collector/loadbalancermetrics/loadbalancermetrics.go:308-343 | A measurement succeeds exactly if no required request failed and no extended one ran out of time, and holds the points of the calls that succeeded and their newest time |
| `Measuring.ContainedFailuresAddNothing` | internal/collector/loadbalancermetrics/loadbalancermetrics.go:308-316 | The points and the time are those of the successful calls alone |
| `Measuring.SampledIsTheNewest` | internal/collector/loadbalancermetrics/loadbalancermetrics.go:367-369 | The reported time is no earlier than any sample's, and is a sample's own or zero |
| `Measuring.ReadMeans` | internal/collector/loadbalancermetrics/loadbalancermetrics.go:345-356 | A request fails if it failed, had no response or one whose status is not "success"; it is out of time only if it failed so |
| `Measuring.PointCarries` | internal/collector/loadbalancermetrics/loadbalancermetrics.go:358-365 | A point carries its metric, id, name, the series labels in order, "" where a series lacks one, and the value |
| `Measuring.PointsAreInOrder` | internal/collector/loadbalancermetrics/loadbalancermetrics.go:364-365 | Every sample's point stands behind those of all earlier requests and of the earlier samples of its own |
| `Measuring.UnixIsWholeSeconds` | internal/collector/loadbalancermetrics/loadbalancermetrics.go:367 | The reported time is in whole seconds, rounded down from milliseconds |
| `TimeSeries.Newest` | internal/timeseries/timeseries.go:90-107 | The first of the newest points that are not NaN, whatever the points' order, or not found when there is none |
| `TimeSeries.NewestIsUnique` | internal/timeseries/timeseries.go:90-107 | At most one point of a series is the first newest usable one |
| `TimeSeries.Latest` | internal/timeseries/timeseries.go:57-88 | A missing or unsuccessful response is its own error; otherwise the newest samples of the series |
| `TimeSeries.SamplesComeFromSeries` | internal/timeseries/timeseries.go:75-87 | Each sample has the labels of a series of its own and the value and time of the first newest of that series' usable points, in series order, and no series with a usable point is left out |
| `RetryTransport.Transport.constructor` | internal/doclient/client.go:156-159 | A budget that is not positive means three attempts |
| `RetryTransport.Transport.Attempt` | internal/doclient/client.go:244-269 | A refused attempt counts nothing and is named a context error if it has a deadline or is done; any other counts one request under its status and one duration |
| `RetryTransport.After` | internal/doclient/client.go:215-234 | What one outcome leads to: the end, a response drained and a wait, or the context's error from the wait |
| `RetryTransport.Transport.RoundTrip` | internal/doclient/client.go:206-235 | The loop ends at the first attempt that does not go on, with its outcome, after 1 to the budget's attempts; it drained exactly the responses it discarded and counted exactly the attempts that reached the API |
| `RetryTransport.OneEnd` | internal/doclient/client.go:215-234 | A call has exactly one last attempt, so RoundTrip's contract fixes its outcome |
| `RetryTransport.ResponsesAreConserved` | internal/doclient/client.go:226-233 | Every response obtained is drained exactly once or returned undrained, never both |
| `RetryTransport.DrainedAre` | internal/doclient/client.go:226-230 | The responses drained are exactly those of the attempts followed by a wait, each once, in order |
| `RetryTransport.CountsAgree` | internal/doclient/client.go:258-266 | Requests counted, durations observed and requests that reached the API are one number |
| `RetryTransport.CountedByStatus` | internal/doclient/client.go:258-266 | Under every status, and under error, as many requests are counted as attempts reached the API and came back so |
| `RetryTransport.AtMostOneRefusal` | internal/doclient/client.go:281-289 | A limiter refusal ends the call: at most one per call, and every attempt before the last reached the API |
| `RetryTransport.OnlyWhatIsWorthItIsRetried` | internal/doclient/client.go:206-235 | In any call every attempt but the last was worth another (no finished context, no status outside 429 and 5xx but 501, no 429 of a spent budget without a readable Retry-After), its wait ended before the deadline, and was sat out; the last one was the budget's, not worth another or its wait would not have ended before the deadline, and is returned, or its wait was interrupted and the context's error is |
| `RetryTransport.FallbackIsWaited` | internal/doclient/client.go:291-325 | Up to attempt 34, a failure worth another attempt that names no wait, a failed connection included, is followed by one second doubled with every attempt, ten at most |
| `RetryTransport.NamedWaitIsWaited` | internal/doclient/client.go:305-325 | A wait the response names is waited for exactly, if a duration holds it |
| `RetryTransport.WaitIsMade` | internal/doclient/client.go:215-234 | No attempt comes before the wait in front of it is over |
| `RetryTransport.WaitsFitTheDeadline` | internal/doclient/client.go:373-397 | At every wait a call enters, whatever its budget, the waits so far together are strictly less than what the deadline leaves at its start |
| `RetryTransport.WaitsAreNotNegative` | internal/doclient/client.go:353-371 | No wait is negative with a budget of at most 35 attempts |
| `RetryTransport.RetryAfterIsWaitedOut` | internal/doclient/client.go:305-325 | The attempt after a readable Retry-After in range, seconds or date, never comes earlier than it asks |
| `Durations.BackoffDoubles` | internal/doclient/client.go:353-357 | On attempts 1 to 34 the shift in 64 bits is one second doubled each time, capped at ten |
| `Durations.BackoffWrapsAt35` | internal/doclient/client.go:353-357 | On attempt 35 it is negative |
| `Durations.BackoffDoublesUpTo35Attempts` | internal/doclient/client.go:353-357 | The fallback is as meant on every attempt that may be retried if and only if the budget is at most 35 |
| `Durations.RetryAfterWait` | internal/doclient/client.go:359-371 | A wait is read exactly from the two forms of section 10.2.3 of RFC 9110, is never negative, and in range is those seconds, or what is left to that date |
| `Durations.SecondsAreHonouredUpToTheRange` | internal/doclient/client.go:365-367 | A number of seconds is waited in full if and only if it is at most 9223372036 |
| `Durations.DatesAreHonouredUpToTheRange` | internal/doclient/client.go:368-370 | A date is not arrived at early if and only if it is less than 292 years away, beyond that the wait is the longest there is, and a date in the past means now |
| `Loops.StepInv` | internal/collector/scheduler.go:202-227 | Every step of any loop, the clock or the context keeps: starts and returns differ by the one refresh in flight, and starts plus the held tick are at most one more than the ticks fired |
| `Loops.NoOverlap` | internal/collector/scheduler.go:202-227 | In every reachable state no collector has two refreshes in flight, and none before its offset |
| `Loops.StartsAreBounded` | internal/collector/scheduler.go:213-226 | By time t a collector with offset o and interval v has started at most 1 + (t - o) / v refreshes, however long each takes |
| `Loops.SecondRefreshesComeAfterAllFirst` | internal/collector/scheduler.go:175-178 | When any collector has started a second refresh, every collector's offset is over |
| `Loops.NextRefreshCanCome` | internal/collector/scheduler.go:202-227 | As long as the context lives, from every reachable state every collector's next refresh can come: the first as soon as its offset is over, any other within one interval once the one in flight returns |
| `Loops.StoppedStaysStopped` | internal/collector/scheduler.go:219-223 | A stopped loop never starts anything again |
| `Loops.ShutdownEnds` | internal/collector/scheduler.go:150-166 | Once the context is done the loops take at most five steps each and two for every tick still to fire, and until all have stopped one of them can take a step that starts nothing for a tick: Run returns |
| `Stagger.StaggerWindow` | internal/collector/scheduler.go:168-185 | The loop's window is the shortest interval, or three seconds if that is shorter |
| `Stagger.WindowIsTheShortest` | internal/collector/scheduler.go:168-185 | It is positive for registered intervals, at most all of them, and one of them or the ceiling |
| `Stagger.OffsetsLieInTheWindow` | internal/collector/scheduler.go:187-198 | Every offset is in [0, window) |
| `Stagger.OffsetsAreEvenlySpread` | internal/collector/scheduler.go:187-198 | The first collector starts at once and every next one window / count later |
| `Stagger.OffsetsAreDistinctWhenTheWindowDivides` | internal/collector/scheduler.go:189-192 | Offsets strictly increase with registration order if and only if the window is at least the number of collectors |
| `Stagger.FirstRefreshesPrecedeSecondOnes` | internal/collector/scheduler.go:175-178 | Every first offset is before every second scheduled refresh |
| `Scheduler.Scheduler.Register` | internal/collector/scheduler.go:97-107 | Non-positive interval and timeout fall back; every entry's interval stays positive |
| `Scheduler.Scheduler.Pending` | internal/collector/scheduler.go:119-130 | The registered names, in order, under which no refresh ever returned nil |
| `Scheduler.Scheduler.Refresh` | internal/collector/scheduler.go:240-274 | One refresh books its duration always, its success unless it failed during shutdown without a panic, its time and readiness if it succeeded, and no other name's anything |
| `Scheduler.BookedIsBalanced` | internal/collector/scheduler.go:240-291 | Whatever the history, success, duration, last success and readiness of every name are what its last counting refresh says |
| `Scheduler.BookedMeans` | internal/collector/scheduler.go:249-273 | A panic is always booked as a failure, an error only if the exporter is not shutting down; readiness and the time of success change on success alone |
| `Scheduler.NotReadyInOrder` | internal/collector/scheduler.go:123-129 | What is pending stands at exactly the places of the registration that are not ready, in order |
| `Scheduler.RunIsBalanced` | internal/collector/scheduler.go:240-291 | After any run of refreshes the books are what the whole history says, and no name has lost its readiness |
| `Scheduler.PendingShrinksOverARun` | internal/collector/scheduler.go:113-139 | Over any run what is pending is a subsequence of what was, less exactly the names that succeeded in it |
| `Scheduler.ReadinessIsPermanent` | internal/collector/scheduler.go:132-139 | A name that is ready stays ready |
| `Paging.KeepNew` | internal/paging/paging.go:85-99 | After a page the output is the first occurrences of all items walked, and seen is exactly their keys |
| `Paging.All` | internal/paging/paging.go:46-83 | By the replies alone: something is returned exactly if every request came before the context was done and was a page, each but the last saying which page it was and the last being the last; then it is the first occurrence by key of all their items, in order; each request asks for the page after the one before; a done context, a failed request or unreadable links give nothing |
| `Paging.OneWalk` | internal/paging/paging.go:57-82 | A server and a context determine one walk |
| `Paging.FirstOccurrencesAre` | internal/paging/paging.go:36-37 | Those are the items at exactly the positions whose key comes first there, in order |
| `Paging.FirstOccurrencesKeys` | internal/paging/paging.go:8-14 | No key twice, and exactly the keys served |
| `Paging.HonestListIsReproduced` | internal/paging/paging.go:36-37 | Against a pager over a keyed list that does not change, with any page size, the walk ends and returns that list |
| `Paging.EndlessListNeverEnds` | internal/paging/paging.go:57-82 | Against a server that always offers a next page no bound on the requests holds |
| `Paging.FilteringCommutes` | internal/collector/droplets/droplets.go:169-174 | Filtering before or after dropping duplicates gives the same list when equal keys pass alike |
| `Filters.Filter.MatchTags` | internal/filter/filter.go:57-67 | No tag condition, or some carried tag among the asked-for ones |
| `Filters.Filter.Match` | internal/filter/filter.go:48-50 | Both conditions |
| `Filters.Filter.SingleTag` | internal/filter/filter.go:79-92 | A tag is returned exactly when the filter is that one tag and no region |
| `Filters.New` | internal/filter/filter.go:22-40 | The filter for two lists admits what carries one of the tags, if any, and lies in one of the regions, if any |
| `Filters.SingleTagAdmitsThatTag` | internal/filter/filter.go:79-92 | A filter is a single tag if and only if it admits precisely the resources carrying that tag |
| `Droplets.AdmittedAre` | internal/collector/droplets/droplets.go:155-161 | What a listing admits are the first copies, by id, that carry an asked-for tag and lie in an asked-for region, a droplet without a region lying in "" |
| `Droplets.Listing` | internal/collector/droplets/droplets.go:175-185 | The tag-scoped endpoint exactly for a single-tag filter |
| `Droplets.TagScopedListingAgrees` | internal/collector/droplets/droplets.go:169-174 | A walk served the tagged part of what the full walk is served admits the same droplets in the same order, if two copies of a droplet agree on the tag |
| `Droplets.FastPathReportsTheSame` | internal/collector/droplets/droplets.go:169-174 | Against two honest pagers of any page sizes both paths report the droplets of the account the filter admits |
| `Droplets.Collector.Refresh` | internal/collector/droplets/droplets.go:148-167 | The snapshot is replaced by the admitted droplets of a whole walk, and kept when the walk fails |
| `Databases.TakePage` | internal/collector/databases/databases.go:209-223 | One page: the clusters up to the first repeat are recorded and filtered, and a repeat is reported exactly if there is one |
| `Databases.ListClusters` | internal/collector/databases/databases.go:192-239 | The walk ends within one request more than the full pages the universe of ids can fill, fails exactly if its last request failed, and otherwise lists the filtered clusters before the first repeat |
| `Databases.AdmittedAre` | internal/collector/databases/databases.go:219-222 | What is listed are exactly the clusters that carry an asked-for tag and lie in an asked-for region |
| `Databases.RequestsAreBounded` | internal/collector/databases/databases.go:204-208 | n full pages without a repeat need 200 n distinct ids, whatever the endpoint does with the page number |
| `Databases.DistinctPrefixIsUnique` | internal/collector/databases/databases.go:209-215 | There is one longest prefix without a repeat |
| `Databases.PagedEndpointIsListedWhole` | internal/collector/databases/databases.go:230-236 | An endpoint that pages over distinct ids is walked once through, and all is listed |
| `Databases.UnpagedEndpointIsListedWhole` | internal/collector/databases/databases.go:204-208 | An endpoint that serves the same list for every page costs at most one more request, and all is listed |
| `Databases.ShiftedListIsCutOff` | internal/collector/databases/databases.go:204-228 | A page that starts with a cluster of an earlier one ends the list there, whatever follows |
| `Databases.ListedWholeExactlyWhenNothingNewFollows` | internal/collector/databases/databases.go:204-228 | For every endpoint and any number of its pages, the walk lists each admitted cluster on them once if and only if no admitted cluster after the first repeat is new |
| `Databases.ShiftedListLosesClusters` | internal/collector/databases/databases.go:204-228 | When the second page starts one cluster early, every cluster beyond the first page is served and never listed |
| `Databases.OneClusterIsLost` | internal/collector/databases/databases.go:204-228 | A list of 201 clusters that loses its last one so |
| `Databases.LookUp` | internal/collector/databases/databases.go:179-184 | Details found, or last known when the lookup failed; out of time if and only if some listed cluster's lookup failed with the context done, any other failure costing only freshness |
| `Histories.LastKnownIsLearnedLast` | internal/collector/databases/databases.go:255-261 | What is carried forward is what was learned last while the key was listed without a break |
| `Databases.RemembersStep` | internal/collector/databases/databases.go:241-280 | One refresh keeps every cluster in step with the history: its details are those of the last successful lookup since the cluster was last missing, and unknown if there was none or none are asked for |
| `Databases.Collector.Refresh` | internal/collector/databases/databases.go:173-190 | The snapshot is replaced only by a whole listing with all its lookups, is unchanged on any error, and stays what the history says |
| `Spaces.Collector.Discover` | internal/collector/spaces/spaces.go:184-223 | Each listed bucket in its cached region, or where locating says, or the default region; only names not cached are asked about |
| `Spaces.RegionIsTheBestKnown` | internal/collector/spaces/spaces.go:204-235 | A cached bucket is looked for in its cached region, a located one where locating says, any other in the default region |
| `Spaces.ConfiguredKeepsRegions` | internal/collector/spaces/spaces.go:166-176 | A configured bucket keeps its name and the region it names, and is in the default region only without one |
| `Spaces.Collector.MeasureAll` | internal/collector/spaces/spaces.go:273-293 | One slot per bucket, filled with its own measurement |
| `Spaces.Collector.Merge` | internal/collector/spaces/spaces.go:298-313 | The loop's new snapshot is the merge the lemmas are about |
| `Spaces.Collector.RememberRegions` | internal/collector/spaces/spaces.go:246-261 | The new cache is made of this refresh's measured buckets alone |
| `Spaces.Collector.Refresh` | internal/collector/spaces/spaces.go:139-164 | A failed listing changes nothing; otherwise snapshot and cache are replaced, and the refresh fails exactly if every bucket of a non-empty list did; the cache stays a mirror of the snapshot |
| `Spaces.MergedHolds` | internal/collector/spaces/spaces.go:295-313 | The new snapshot holds exactly the buckets of the results, each with its own figures or its carried ones |
| `Spaces.DiscoveryKeepsTheCacheMirrored` | internal/collector/spaces/spaces.go:246-313 | After a refresh the cache is exactly the name-to-region projection of the entries that are up, and no name is in the snapshot under two regions |
| `Spaces.RemembersStep` | internal/collector/spaces/spaces.go:295-313 | One refresh keeps every bucket in step with the history: there exactly if last looked for in that region, up exactly if then measured, its figures those of its last measurement there since it was last missing |
| `Spaces.CachedRegionsAreTrue` | internal/collector/spaces/spaces.go:97-103 | If a bucket measures only in its true region, every cached region is true |
| `Spaces.FiguresAreKeptWithinTheRegion` | internal/collector/spaces/spaces.go:135-138 | A bucket that fails keeps its last figures if and only if it was looked for in the region they came from |
| `Spaces.UnlocatableBucketLosesItsFigures` | internal/collector/spaces/spaces.go:204-223 | A bucket that was down, cannot be located and lies outside the default region loses its figures |
| `Urns.TypeOfAUrn` | internal/collector/projects/projects.go:189-197 | The type of `do:<type>:<id>` is that type |
| `Urns.OnlyUrnsHaveATypeOfTheirOwn` | internal/collector/projects/projects.go:189-197 | A type other than unknown comes from a URN of that shape only |
| `Urns.LessIsLexicographic` | internal/collector/projects/projects.go:185 | Types are ordered by the first character that differs, a prefix coming first |
| `Projects.Tally` | internal/collector/projects/projects.go:175-178 | The map counts each type, and holds exactly the types that occur |
| `Projects.Entries` | internal/collector/projects/projects.go:179-182 | In whatever order the map is walked, exactly its entries, each type once |
| `Projects.CountResources` | internal/collector/projects/projects.go:164-187 | Counts that are strictly sorted by type, complete, positive, each the number of URNs of that type, and adding up to the number of resources |
| `Projects.UrnIsCounted` | internal/collector/projects/projects.go:175-178 | A resource named `do:<type>:<id>` is counted under that type, with all others of it |
| `Projects.UrnsAreTheServedOnes` | internal/collector/projects/projects.go:164-173 | Every URN a project's walk served is counted, once, and nothing else is |
| `Projects.CountsAddUp` | internal/collector/projects/projects.go:13-15 | Canonical counts add up to the number of URNs: nothing is dropped or counted twice |
| `Projects.CountsAreCanonical` | internal/collector/projects/projects.go:183-185 | Two canonical counts of the same resources in any order are the same list |
| `Projects.SortedIsUnique` | internal/collector/projects/projects.go:183-185 | Two strictly sorted lists of the same entries are one list |
| `Projects.Collector.Measure` | internal/collector/projects/projects.go:142-162 | Fresh counts, or the last known ones when the walk failed, or none and not known |
| `Projects.Collector.MeasureAll` | internal/collector/projects/projects.go:115-127 | One entry per listed project, and failed equals the list exactly if every walk failed |
| `Projects.ReportedAsListed` | internal/collector/projects/projects.go:145-151 | Every listed project is in the snapshot under its id, described as it was listed |
| `Projects.RemembersStep` | internal/collector/projects/projects.go:138-162 | One refresh keeps every entry in step with the history: its counts are the canonical counts of the last successful walk since the project was last missing, and none are known if there was none |
| `Projects.Collector.Refresh` | internal/collector/projects/projects.go:104-136 | A failed listing, or every walk failing, leaves the snapshot unchanged; otherwise it holds exactly the listed projects and stays what the history says |

## Left out

- The load balancer collector's own listing, rotation, fan-out, merge and report: they are the droplet collector's code with another resource, and are modelled once; its measurement, which differs, is in `Measuring`.
- HTTP, TLS, godo, the S3 client, JSON and Prometheus: the server is a function of replies, the gauges are maps and counters, error texts and logging are dropped.
- The internals of the rate limiter, the ticker and contexts: only what they promise is modelled (admit or refuse, one held tick, done is for ever).
- The rate-limit gauges, the collector and resource labels of a request, and the parsing of headers: `RetryTransport` starts from what the headers parsed to.
- How much of a discarded body is drained before it is closed (at most 64 KiB); draining is one event per response.
- Lost ticks: a tick can come arbitrarily late in `Loops`, which admits more runs than a real ticker; every bound proved holds for both.
- Go's floating point: sample values and sizes are reals or NaN, without infinities or rounding.
- Strings are sequences of characters rather than bytes; the order of types is the order of characters.
- Times are unbounded integers in nanoseconds; only durations have their 64-bit width (products wrap, differences of times saturate).
- `sort.Slice` itself: `Projects.SortByType` sorts by insertion and is proved to have the contract the code relies on.
- The semaphore that bounds concurrent bucket measurements: every bucket has its own slot and its own measurement, so their order does not show.
- Paging inside a cluster's detail lookups and which client errors mean "not offered": a lookup is one answer.
- Copying of API fields into snapshot entries and their emission (`newDroplet`, `newCluster`, `Collect`), and the label copying of `labelsOf`.
- The single-list collectors, `kubernetes`, `uptime`, `registry`, configuration, command wiring, dashboards and packaging: plumbing, or simpler repeats of what is proved here.
