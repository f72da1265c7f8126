# WhatsUpp: a verified model of its stateful protocols

WhatsUpp is a monitoring hub with agents. Underneath its I/O it is a set of small stateful protocols: a port-drift
debouncer, tiers of downsampled metrics, monitors that open and close incidents and send alerts, a cron evaluator, a
login limiter, an agent that retries and backs off, and a WebSocket event loop. This project models each of them in
Dafny and proves what holds over whole runs, for every input and every interleaving.

The code that updates things step by step is imperative here too: objects with fields are classes, tables are fields
of type `seq` or `map`, loops are loops with invariants. Each state-changing method is tied by its `ensures` to a step
function on values (`View() == Step(old(View()), ...)`), and the run theorems are lemmas about folding that step
function over arbitrary event sequences. Concurrent parts (the port scanner, the WebSocket hub) are step systems whose
lemmas quantify over all schedules.

Run `dafny verify dfyconfig.toml` to check everything.

| file | content |
|---|---|
| `Options.dfy`, `Int64.dfy`, `Arithmetic.dfy`, `Sequences.dfy`, `Tables.dfy` | optional values; 64-bit wrap-around; products and remainders; sorted integer sequences; "newest `limit` rows", of a key or of all |
| `PortDrift.dfy`, `PortDebouncer.dfy`, `PortLedger.dfy` | drift functions and scan handler; its equivalence to a declarative per-port debouncer; the alert ledger |
| `PortScan.dfy` | the bounded-concurrency scanner under every interleaving |
| `MetricTiers.dfy`, `MetricExactness.dfy`, `MetricRuns.dfy` | raw to 5-minute to hourly to daily aggregation with retention; exactness over runs |
| `MetricHours.dfy`, `MetricDays.dfy`, `MetricHeard.dfy`, `MetricLate.dfy` | hours and days that are aggregated before all their parts are; late samples |
| `MetricSchedule.dfy`, `MetricMidnight.dfy` | tick schedules: windows, buckets before their hour, hours before their day |
| `CheckTiers.dfy`, `CheckCounts.dfy`, `CheckDays.dfy`, `CheckHours.dfy` | check-result aggregation; the rows of an hour; the daily row and when its counts are the recorded ones; the same by hours |
| `Monitors.dfy`, `Incidents.dfy`, `Alerts.dfy`, `Staleness.dfy`, `HubPipeline.dfy`, `HubRuns.dfy`, `HubMonitors.dfy` | results, incidents, alerts, reload, restart and the staleness checker on one incident table; what each monitor's state says about a run |
| `Calendar.dfy`, `CronText.dfy`, `CronFields.dfy`, `Cron.dfy` | the Gregorian calendar, field parsing and the next-run search |
| `LoginLimiter.dfy` | the login rate limiter against its full history |
| `CollectorBackoff.dfy`, `AgentLoop.dfy` | backoff and retry buffer of the agent |
| `WebSocketHub.dfy` | the event loop, its clients, `Broadcast` and `Stop` |

Conventions: clocks are integers that do not go back (nanoseconds where the code keeps `time.Time`, whole seconds where
it keeps Unix seconds); latencies and metric values are reals; store calls do not fail; a network send may fail
whenever it likes; where an operation reads the clock more than once, each reading is a parameter.

## Where the code does less than it says

These are results of the model, each with an exact condition or a concrete run.

* `flushBuffer` says it re-buffers the remaining batches and re-adds only the failing one
  (internal/agent/agent.go:149-159). The buffer never holds more than two batches, and a round loses a batch exactly
  when two are buffered and the first fails (`RoundStaysSmall`, `FlushLosesBatch`). A round that delivers its own batch
  after a failed flush breaks production order, and nothing else does (`RoundKeepsOrderIff`, `DeliveryCanReorder`).
* The daily job runs at midnight, before the hourly tick that writes the day's last hour, unless that tick fires on the
  hour. The daily row is then, for good, that of the hours before it (`DayExact`, `MidnightDay`, `ScheduledDay`).
* When the tickers start less than five minutes into an hour, the tick of an hour's last 5-minute bucket coincides with
  the hourly one (`BucketsReadyIff`). If the hourly step runs first, the hour's row covers exactly the first eleven
  buckets (`ScheduledRace`, `RaceCanBeLost`), and the day's row lacks the lost buckets as well (`RacedMidnight`).
* A sample that arrives after its 5-minute bucket was aggregated leaves no trace in any tier (`LateSampleInvisible`).
* `check_results_hourly` has no unique key, so an hour aggregated twice is there twice. Whatever the ticks do, the daily
  row counts each result as often as its hour was aggregated after it was recorded (`DayCountsAre`, `SumsAre`). Its
  counts are the recorded ones exactly when what was counted again makes up for what was missed (`DayCountsRawIff`,
  `DayRowRawIff`);
  when only one of the two happened, exactly when each result was counted once (`DayIsRawIff`). One late tick leaves out
  an hour and doubles the next: a day with one success and one failure then shows two successes and full uptime
  (`LateTickMiscounts`).
* `Run` sends on its own unbuffered `unregister` channel (internal/api/websocket.go:95), on which only `Run` receives:
  one full client channel blocks the event loop for ever, and that is reachable (`DeliverBlocksIff`, `BlockedForever`,
  `BlockIsReachable`).
* `Stop` checks the `quit` channel before it closes it; two concurrent callers can close it twice, and that is excluded
  exactly by letting nobody check between another caller's two steps (`QuitClosedOnceIff`, `TwoStopsCloseTwice`).
* A reload that drops a DOWN monitor leaves its incident open, and re-adding the monitor can open a second one
  (`ReloadKeepsInvIff`, `DroppedMonitorLeaksIncident`).
* Nothing stops a monitor from being configured under a name like `agent:host`; it then shares incidents with that
  agent. Monitors under any names keep being DOWN iff they have an open incident exactly as long as no staleness pass
  meets a heartbeat that contradicts such a monitor's status, and no reload adds a name that has an open incident
  (`CheckMirrorsIff`, `ReloadMirrorsIff`, `StepMirrorsIff`). In a run of four events such a monitor ends DOWN without
  an open incident (`SharedNameLosesIncident`).
* `delay(1)` is `base` even when `base > max`, and the doubling overflows int64 exactly when `max` exceeds the first
  doubling of `base` that reaches 2^62 (`DelayClosedForm`, `DelayIsIdealIff`).
* `nextCronTime` rejects a match at exactly 366 days (`YearlyErrsWhen`, `FirstOfMarchErrs`); day of month and weekday are
  ANDed, so a schedule such as Friday the 13th can find nothing for a year (`FridayThirteenthErrs`); a step near 2^63
  wraps around (`StepsProgressionIff`).
* The repository's README.md:258-266 states other retention periods than internal/hub/downsampler.go:15-22 (it keeps
  5-minute data 90 days, the code 24 hours). The model follows the code.

## Model

| member | source | states |
|---|---|---|
| PortDrift.CompareBaseline | internal/checks/security.go:139-164 | the new ports are the sorted scan minus the baseline, the gone ports the sorted baseline minus the scan, repetitions kept |
| PortDrift.FilterByHysteresis | internal/checks/security.go:94-128 | passes everything for hysteresis <= 1, nothing on short history, else exactly the candidates on which the whole window agrees |
| PortDrift.ApplyBaselineDrift | internal/checks/security.go:171-189 | the unique strictly ascending list of baseline plus alerted-new minus alerted-gone, whatever the map order |
| PortDrift.Drifted | internal/checks/security.go:165-189 | a port is in the new baseline iff it was in it or alerted new, and was not alerted gone; the list is strictly ascending |
| PortDrift.PortWatch.GetRecentSecurityScans | internal/store/queries.go:124-145 | the newest `limit` scans of the target, newest first |
| PortDrift.PortWatch.ProcessScanResult | internal/hub/hub.go:708-787 | the stored scans, baselines and sent alerts after a scan, and the unfiltered drift returned; a target's first scan becomes its baseline and alerts nobody |
| PortDrift.PortWatch.AcceptBaseline | internal/api/handlers.go:324-357 | the target's newest scan among the hundred newest becomes its baseline; not found when there is none, and then nothing changes |
| Tables.NewestIsLast | internal/store/queries.go:102-121 | with increasing timestamps that scan is the target's last one |
| Tables.RecentAreLast | internal/store/queries.go:124-145 | with increasing timestamps, ORDER BY timestamp DESC LIMIT n yields exactly the last n inserted, newest first |
| Tables.AllRecentAre | internal/store/queries.go:102-121 | the newest rows over all keys: as many as the limit allows, newest first, and those no newer row is left out for |
| PortDebouncer.ReportedIff | internal/hub/hub.go:733-757 | a drifted port is reported iff the `hysteresis` newest stored scans exist and agree on it |
| PortDebouncer.BaselineStep | internal/hub/hub.go:708-787 | over any history, the next event of a target changes the believed value of a port iff it settles it |
| PortDebouncer.BaselineIsDebounced | internal/hub/hub.go:708-787 | debouncer refinement: after any interleaving of targets, hysteresis values and accepts, a port is in the stored baseline iff the last event that settled it saw it open |
| PortDebouncer.SomeEventSettles | internal/hub/hub.go:723-728 | the debouncer's value is always defined: the first scan settles every port |
| PortLedger.ScanAlerts | internal/hub/hub.go:731-781 | a scan alerts on a port exactly once, of the right kind, iff it flips the port in the baseline |
| PortLedger.AlertsOfScan | internal/hub/hub.go:731-781 | a scan's alerts are those for the ports it opens in the baseline, ascending, and then those for the ports it closes, ascending |
| PortLedger.LedgerEffect | internal/hub/hub.go:708-787 | what any event of a run adds to the alerts about any port: one alert, of the right kind, iff it is a scan of that target, the target had a baseline, and the port flips in it; accepts and first scans add nothing |
| PortLedger.SilentBeforeSecond | internal/hub/hub.go:723-727 | nothing is ever sent about a target's ports before its second scan |
| PortLedger.LedgerStep | internal/hub/hub.go:731-781 | the same for every event of a run that is not an accept of this target |
| PortLedger.AlertsAlternate | internal/hub/hub.go:731-781 | between accepts, the alerts about a port strictly alternate and account exactly for the change of the baseline |
| PortLedger.DeviationAlertsOnce | internal/hub/hub.go:733-781 | a deviation of fewer than k scans never alerts; one of k or more alerts exactly once, at the k-th scan, and flips the baseline there |
| PortScan.StepKeepsInv | internal/checks/security.go:39-78 | every atomic step of spawner and workers keeps the scan invariant |
| PortScan.ScanIsThrottled | internal/checks/security.go:22-57 | in every interleaving at most `concurrency` workers (200 by default) hold a slot, another may start exactly while fewer do, and the open list has no repetition and only ports of the range that answered |
| PortScan.ScanIsExact | internal/checks/security.go:22-78 | every returning interleaving returns the ascending list of exactly the ports of the configured range (1 to 65535 by default) that answered |
| PortScan.ProgressIsExact | internal/checks/security.go:45-71 | every multiple of a hundredth of the total (at least one) is reported exactly once, and so is the total |
| PortScan.NeverStuck | internal/checks/security.go:52-75 | no reachable state is deadlocked |
| PortScan.RunsAreBounded | internal/checks/security.go:52-78 | every schedule is finite, with an explicit bound |
| PortScan.ScanReturns | internal/checks/security.go:52-78 | from every reachable state some schedule returns |
| MetricTiers.GroupNonEmpty | internal/store/agent_metrics.go:223-237 | a 5-minute group has rows iff its key is among the grouped keys, so every aggregate is over a non-empty group |
| MetricTiers.RowsNonEmpty | internal/store/agent_metrics.go:271-302 | a series has rows in a window iff it is among the grouped series |
| MetricTiers.MetricStore.AggregateFiveMin | internal/store/agent_metrics.go:223-237 | grouping the samples one by one and upserting each group gives the table of grouped averages, minima and maxima |
| MetricTiers.MetricStore.DeleteOldRaw | internal/store/agent_metrics.go:305-311 | exactly the samples at or after the cutoff are left, as often as before and in order; returns the number removed |
| MetricTiers.Aggregate | internal/store/agent_metrics.go:271-302 | scanning each series in time order and upserting its combined row gives the aggregated table |
| MetricTiers.MetricStore.FiveMinTick | internal/hub/downsampler.go:61-78 | one turn of the 5-minute loop: aggregate the truncated window; of the raw samples exactly those not older than six hours are left |
| MetricTiers.MetricStore.RunHourlyAggregation | internal/hub/downsampler.go:139-175 | the agent-metric half: under the previous hour each series with 5-minute rows in it has their combined row, every other hourly key is as before, and exactly the 5-minute rows older than a day are gone |
| MetricTiers.MetricStore.RunDailyAggregation | internal/hub/downsampler.go:177-203 | the agent-metric half: under the day each series with hourly rows in it has their combined row, every other daily key is as before, and exactly the hours older than ninety days are gone |
| MetricExactness.ValuesSplit | internal/store/agent_metrics.go:223-237 | splitting a window splits its samples: counts and sums add, members unite |
| MetricExactness.AggregateExact | internal/store/agent_metrics.go:271-302 | aggregating exact slots gives an exact slot one tier up: extremes of the raw samples, average between them, no row without samples |
| MetricExactness.AggregatePrecise | internal/store/agent_metrics.go:271-302 | when the non-empty slots hold equally many samples, the average of averages is the raw mean |
| MetricRuns.RawRetained | internal/hub/downsampler.go:15-22 | over any run the samples of the last six hours are all still in the raw table |
| MetricRuns.RawIsSixHours | internal/hub/downsampler.go:61-78 | right after a 5-minute tick of any run the raw table holds exactly the inserted samples of the last six hours |
| MetricRuns.TiersFounded | internal/store/agent_metrics.go:223-285 | over any run every 5-minute and hourly row is aligned and stands for at least one sample |
| MetricRuns.FivePrecise | internal/hub/downsampler.go:61-78 | a bucket aggregated after its samples arrived is their AVG, MIN and MAX, for a day, whatever else runs |
| MetricRuns.HourExact | internal/hub/downsampler.go:139-175 | an hour aggregated after its twelve buckets has the raw extremes, an average between them, the raw mean when buckets are equally filled, for ninety days |
| MetricHours.ShortHourExact | internal/hub/downsampler.go:139-175 | an hour aggregated once, when exactly its first n buckets had been, has for ninety days the exact row of those buckets |
| MetricDays.DayExact | internal/hub/downsampler.go:177-203 | a day's row has for ever the raw extremes (and mean, when evenly filled) of exactly the hours aggregated before it; missing last hours are missing |
| MetricHeard.MixedDayExact | internal/hub/downsampler.go:177-203 | a day whose hours lost their last buckets, or were never aggregated, has for ever the exact row of the samples outside the lost buckets |
| MetricLate.FiveOutside | internal/store/agent_metrics.go:223-237 | aggregating one bucket reads no sample of another |
| MetricLate.LateSampleInvisible | internal/hub/downsampler.go:61-78 | a sample whose bucket is not aggregated again changes no tier, in any run |
| MetricSchedule.OnTimeIff | internal/hub/downsampler.go:61-64 | a tick aggregates its own period's window iff it read the clock before its period was over |
| MetricSchedule.WindowsTileIff | internal/hub/downsampler.go:54-116 | the windows of the first ticks cover time from the truncated start without a gap iff every tick ran inside its period |
| MetricSchedule.WindowsDisjoint | internal/hub/downsampler.go:54-116 | on-time windows do not overlap |
| MetricSchedule.BucketTickIs | internal/hub/downsampler.go:61-64 | exactly one tick number aggregates each of the twelve buckets of an hour |
| MetricSchedule.BucketsReadyIff | internal/hub/downsampler.go:54-142 | the periods of the twelve buckets' ticks end by the time the hourly tick fires iff the start is five minutes or more into its hour; otherwise the last bucket's tick fires together with it |
| MetricSchedule.ScheduledHour | internal/hub/downsampler.go:54-116 | on such a schedule, with prompt samples, every hourly tick from the second on finds its twelve buckets done |
| MetricSchedule.ScheduledRace | internal/hub/downsampler.go:54-116 | started less than five minutes into an hour, an hour's row covers twelve buckets if the coincident 5-minute step ran before the hourly one, and exactly eleven otherwise |
| MetricSchedule.RaceCanBeLost | internal/hub/downsampler.go:54-116 | some on-time run with a prompt sample in the last bucket leaves the hour without a row |
| MetricMidnight.MidnightDay | internal/hub/downsampler.go:118-137 | for every nonzero phase of the hourly ticker the daily step misses the last hour; complete hours before it make the row exact for them, for good |
| MetricMidnight.ScheduledDay | internal/hub/downsampler.go:118-137 | started five minutes or more into an hour, on time and with prompt samples, the ticks up to the last before midnight and the daily step yield, for good, the exact row of all hours but the last |
| MetricMidnight.RacedMidnight | internal/hub/downsampler.go:118-137 | started earlier in the hour, the row is exact for all hours but the last without the last buckets of the hours whose race was lost |
| CheckTiers.CheckStore.DeleteOldCheckResults | internal/store/queries.go:184-191 | exactly the results at or after the cutoff are left, as often as before and in order; returns the number removed |
| CheckTiers.CheckStore.RunHourly | internal/hub/downsampler.go:139-154 | the check-result half: each monitor with results in the previous hour gets one more row with the numbers of its up and down results, their share, and the average and extreme latencies of the up ones; exactly the results of the last twelve hours are left |
| CheckTiers.CheckStore.RunDaily | internal/hub/downsampler.go:177-196 | the check-result half: each monitor with hourly rows in the day gets one more row with their summed counts, the share of the sums, the mean of the averages and the extremes; exactly the hourly rows of the last ninety days are left |
| CheckTiers.UpsAre | internal/store/queries.go:198-212 | the counted results are those of the monitor with that status and `hourStart <= timestamp < hourEnd`, one for one |
| CheckTiers.UpsMember | internal/store/queries.go:198-212 | the latencies are those of the monitor's up results in the window |
| CheckCounts.ChecksRetained | internal/hub/downsampler.go:148-154 | over any run the results of the last twelve hours are all still in the raw table |
| CheckCounts.HourRowsAre | internal/store/queries.go:195-212 | for ninety days an hour's rows are copies of the summary of all its results, one per aggregation |
| CheckDays.HoursAccount | internal/store/queries.go:195-212 | over any run, for ninety days, the hourly rows of any whole hours have the counts and the latency extremes of what the hourly steps counted in them |
| CheckDays.DayCountsAre | internal/store/queries.go:248-265 | however often each hour was aggregated and however late its results: the daily row has the counts, the uptime and the latency extremes of the counted results; none when nothing was counted |
| CheckDays.SumsAre | internal/store/queries.go:195-265 | the up, or down, counts are the sum over the recorded results of how often their hour was aggregated after them, or the recorded ones plus the sum of what each is counted beyond once |
| CheckDays.CountedIff | internal/store/queries.go:195-265 | a result is among the counted ones iff its hour was aggregated after it was recorded |
| CheckDays.DayCountsRawIff | internal/store/queries.go:248-265 | the daily row has exactly the recorded counts iff what was counted again sums up to what was missed, for ups and for downs |
| CheckDays.DayRowRawIff | internal/store/queries.go:248-265 | the whole daily row is that of the recorded results iff, besides, the counted ones have the same extreme latencies |
| CheckDays.DayIsRawIff | internal/store/queries.go:248-265 | when results were only missed, or only counted again, the daily row is that of the recorded results iff each was counted once |
| CheckHours.CountedInHour | internal/store/queries.go:195-212 | an hour whose results had arrived when it was first aggregated is counted exactly as often as it was aggregated |
| CheckHours.DayCountsPerHour | internal/store/queries.go:248-265 | for such hours the daily counts are the sums over the hours of aggregations times results |
| CheckHours.DayConserves | internal/store/queries.go:248-265 | the first hours aggregated `c` times each and the others never: `c` times the counts, the raw uptime and the raw latency extremes |
| CheckHours.LateTickMiscounts | internal/hub/downsampler.go:139-154 | one late tick: an hour is missed and the next doubled, and the daily row shows two successes and full uptime for one success and one failure |
| Calendar.NumberOfDate | internal/hub/cron.go:45-53 | walking the calendar day by day agrees with the closed-form Gregorian day number |
| Calendar.DateOfNumber | internal/hub/cron.go:45-53 | and the two are inverse to each other |
| Calendar.WeekdayIs | internal/hub/cron.go:48 | the weekday formula is the weekday that starts as Thursday on 1 January 1970 and moves on by one each day |
| Calendar.OtherDate | internal/hub/cron.go:43-54 | in a year with a 29 February every other date comes up before the anniversary |
| Calendar.NextAnniversary | internal/hub/cron.go:43-54 | every date but 29 February comes round within 366 days, and in exactly 366 only from itself |
| CronText.AtoiItoa | internal/hub/cron.go:65-89 | reading a printed 64-bit number gives it back |
| CronText.AtoiIff | internal/hub/cron.go:65-89 | a text reads as a number iff it is that number, of 64 bits, written with an optional sign and leading zeros |
| CronText.TrimPadded | internal/hub/cron.go:63 | trimming removes the white space on both sides and nothing else |
| CronText.FieldsSpaced | internal/hub/cron.go:14-17 | splitting words with any white space before, between and after them gives them back |
| CronText.SplitJoin | internal/hub/cron.go:62 | splitting parts written with commas gives them back |
| CronText.JoinSplit | internal/hub/cron.go:62 | the parts of any text have no comma, and joined with commas they are the text |
| CronFields.TurnTaken | internal/hub/cron.go:78-80 | the stepping loop ends for every 64-bit start and step, wrap-around included |
| CronFields.AddSteps | internal/hub/cron.go:78-80 | the stepping loop adds the set it is specified to |
| CronFields.ParseCronField | internal/hub/cron.go:59-98 | the set, or the first error, of the parts from left to right |
| CronFields.PartOfIff | internal/hub/cron.go:62-94 | a part is accepted iff it is `*`, a number within the limits, or a step of at least one behind `*` or a number, and then stands for the set it should |
| CronFields.PartErrs | internal/hub/cron.go:65-91 | which error any other part gives: its step first, then its start; its number, then the limits |
| CronFields.FieldIs | internal/hub/cron.go:62-97 | a field whose comma-separated, trimmed parts are all accepted stands for their union |
| CronFields.FieldErrs | internal/hub/cron.go:62-94 | any other field errs as the first of its parts that does |
| CronFields.StepsProgressionIff | internal/hub/cron.go:70-80 | a `/` part stands for the arithmetic progression iff no addition of the step overflows 64 bits |
| CronFields.ModerateStepsAreProgression | internal/hub/cron.go:70-80 | so for every step short of 2^63 by the size of the field |
| CronFields.FieldRoundTrip | internal/hub/cron.go:58-98 | any list of numbers, `*`, `*/N` and `M/N`, written out, parses to the union of what its terms stand for |
| Cron.NextCronTime | internal/hub/cron.go:13-56 | returns the first minute of a calendar date after `after` and less than 366 days later whose minute, hour, day, month and weekday the five sets all contain; errs iff the text does not parse or there is none |
| Cron.FiresIff | internal/hub/cron.go:46-50 | the search's test of a minute is that all five sets contain the parts of its date and time |
| Cron.ScheduleErrs | internal/hub/cron.go:14-38 | the text is a schedule iff it has five fields that parse within 0-59, 0-23, 1-31, 1-12 and 0-6; otherwise the number of fields or the first bad field is reported |
| Cron.ScheduleRoundTrip | internal/hub/cron.go:13-38 | any five written-out fields, with any white space around them, parse to the five sets they stand for |
| Cron.YearlyErrsIff | internal/hub/cron.go:40-55 | with a free weekday and some date every year has, the search errs iff `after` is itself an occurrence exactly 366 days before the next |
| Cron.YearlyErrsWhen | internal/hub/cron.go:40-55 | that is iff the schedule names a single moment of the year, `after` is that moment, and a 29 February lies in the year ahead |
| Cron.FirstOfMarchErrs | internal/hub/cron.go:43-45 | that exception occurs: midnights of 1 March, searched from 1 March 2023 |
| Cron.FridayThirteenthErrs | internal/hub/cron.go:46-50 | day of month and weekday are ANDed: on 14 August 1999 no Friday the 13th is found |
| Monitors.MonitorState.RecordResult | internal/hub/monitor.go:72-94 | the new status, counter, error and totals, and the transition between the statuses |
| Monitors.MonitorState.UptimePct | internal/hub/monitor.go:56-62 | one hundred without checks, else the exact percentage |
| Monitors.CounterIsTrailingRun | internal/hub/monitor.go:72-94 | the counter is the length of the failing run at the end of the history |
| Monitors.DownIffLastFailed | internal/hub/monitor.go:72-94 | after any history the monitor is DOWN iff the last `threshold` results all failed |
| Monitors.TransitionsAreEdges | internal/hub/monitor.go:72-94 | a transition is returned exactly at the failure that completes the threshold and the success that ends it |
| Monitors.TotalsCount | internal/hub/monitor.go:72-76 | the totals are the numbers of results and of successes in the history |
| Monitors.CountConsecutiveFailures | internal/store/queries.go:334-347 | the length of the run of "down" rows among the newest hundred |
| Monitors.StoreCountsTheSame | internal/store/queries.go:310-347 | on the unpruned store it equals the state machine's counter, capped at 100 |
| Incidents.OpenIndex | internal/store/queries.go:62-79 | the open incident with the latest start, or none when there is none |
| Incidents.OneOpen | internal/store/queries.go:62-79 | in a well-formed table a name has one open incident or none, and the query finds it |
| Incidents.Store.CreateIncident | internal/store/queries.go:41-50 | appends one open incident and returns its id |
| Incidents.Store.ResolveIncident | internal/store/queries.go:53-59 | as many rows as before, the resolution time set on those with that id, all else unchanged |
| Incidents.Store.GetOpenIncident | internal/store/queries.go:62-79 | the open incident of the monitor that no other open one started after, or none when none is open |
| Incidents.Store.UpsertHeartbeat | internal/store/agent_metrics.go:152-159 | the table holds exactly the host's new row and the other hosts' rows, one per host, in host order |
| Incidents.Store.GetStaleAgents | internal/store/agent_metrics.go:201-220 | exactly the heartbeats before the threshold cut to a whole second, in host order |
| Incidents.UpsertKeepsOrdered | internal/store/agent_metrics.go:152-159 | the upsert keeps host order and one row per host |
| Incidents.TextBeforeIff | internal/store/agent_metrics.go:173-203 | host order: after a common beginning one host ends or has the smaller character |
| Incidents.CreateKeeps | internal/hub/incidents.go:17-27 | creating for a name without an open incident keeps all intervals disjoint and opens exactly that name |
| Incidents.ResolveKeeps | internal/hub/incidents.go:29-41 | resolving keeps all intervals disjoint and closes exactly that name |
| Incidents.IncidentManager.HandleTransition | internal/hub/incidents.go:15-46 | DOWN appends one open incident with the given start and cause and returns it, UP resolves the open one, a missing one is no error, and nothing else changes |
| Alerts.NtfyClient.SendDown | internal/alerting/ntfy.go:78-101 | a DOWN message is sent and remembered unless muted or within the reminder interval |
| Alerts.NtfyClient.SendRecovery | internal/alerting/ntfy.go:103-120 | the memory of the DOWN is dropped, and a message sent unless muted |
| Alerts.RemindersAreSpaced | internal/alerting/ntfy.go:78-120 | for any calls and mutes, DOWN messages with no recovery call between are at least the reminder interval apart |
| Alerts.DownSentIff | internal/alerting/ntfy.go:78-101 | after any calls since a recovery, a DOWN is sent iff the name is not muted and the last DOWN message since, if any, is a reminder interval old |
| Alerts.MutedIff | internal/alerting/ntfy.go:51-76 | a name is muted iff the last call that mutes or unmutes it muted it |
| Staleness.StalenessChecker.Check | internal/hub/staleness.go:33-107 | the incident table and the messages after one pass |
| Staleness.SweepKeeps | internal/hub/staleness.go:43-104 | a pass over any heartbeats keeps incidents disjoint, opens exactly the stale, closes exactly the fresh, and touches agent names only |
| Staleness.SweepRows | internal/hub/staleness.go:33-107 | row by row: open incidents of agents seen at or after the threshold are resolved now; every new row is `agent:` and a stale host that had none, open from this second on, with its cause; nothing else changes |
| Staleness.SweepSettles | internal/hub/staleness.go:33-107 | after a pass a host before the whole second of the threshold has exactly one open incident, one at or after the threshold none, one in between is as before |
| HubPipeline.HubService.ProcessResult | internal/hub/hub.go:495-538 | stored result, monitor, last result and check time, incident table and messages after one result; of an unknown monitor only the stored result |
| HubPipeline.HubService.ReloadConfig | internal/hub/hub.go:415-454 | the monitors are those configured, each under the threshold of its last entry or the default if that is zero; known ones keep the rest of their state, new ones have seen nothing, last results of the others are gone |
| HubPipeline.HubService.ResolveStaleIncidents | internal/hub/hub.go:134-155 | exactly the open incidents of unknown or UP monitors are resolved now, all other rows stay |
| HubPipeline.HubService.Boot | internal/hub/hub.go:52-170 | a restart over existing tables and mutes: a fresh alerter, monitors as configured that have seen nothing, stale incidents resolved; the state `RestartStep` gives, without the record of sent messages |
| HubMonitors.MonitorsTell | internal/hub/hub.go:415-454 | over any run with reloads and restarts: which monitors exist, and each one's threshold, counter, status, totals and error; DOWN iff some failure of the failing run at the end completed the threshold in force when it came in |
| HubMonitors.DownUnderOneThreshold | internal/hub/monitor.go:72-94 | while a monitor's threshold is unchanged, it is DOWN iff the last that many results since its start failed |
| HubMonitors.ReloadKeepsStatus | internal/hub/hub.go:426-429 | a reload changes neither status nor counter, also when the new threshold contradicts them |
| HubMonitors.FailureOpens | internal/hub/hub.go:495-520 | the failure that completes the threshold appends one open incident with its error, from the second of its arrival on |
| HubMonitors.SuccessResolves | internal/hub/hub.go:495-520 | the success that ends it resolves that monitor's open incident at the second of its arrival, and no other |
| HubMonitors.ResultStored | internal/hub/hub.go:495-512 | every result is stored; of a known monitor it is remembered as the last; results below the threshold touch no incident |
| HubMonitors.MutesTell | internal/hub/hub.go:391-399 | over any run a name is muted iff it was muted last; restarts and reloads change no mute |
| HubMonitors.BeatsTell | internal/store/agent_metrics.go:152-159 | over any run the heartbeat table holds, per host, the second of its last report |
| HubRuns.ReloadKeepsInvIff | internal/hub/hub.go:403-455 | a reload keeps "DOWN iff an incident is open" iff it keeps every DOWN monitor |
| HubRuns.CheckMirrorsIff | internal/hub/staleness.go:43-104 | for monitors under any names, a staleness pass keeps "DOWN iff an incident is open" iff no DOWN monitor shares its name with a fresh agent and no UP one with a stale agent |
| HubRuns.ReloadMirrorsIff | internal/hub/hub.go:415-442 | a reload keeps it iff no name it adds has an open incident |
| HubRuns.StepMirrorsIff | internal/hub/hub.go:495-538 | every other event keeps it always, and each event keeps it exactly under these conditions |
| HubRuns.SharedNameLosesIncident | internal/hub/staleness.go:43-104 | a monitor `agent:host` goes DOWN, `host` reports, and the next pass leaves the monitor DOWN without an open incident |
| HubRuns.AllowedIsHarmless | internal/hub/hub.go:403-455 | names that are no agent's and reloads that keep every DOWN monitor meet them |
| HubRuns.HarmlessRunsMirror | internal/hub/hub.go:495-520 | over whole runs under these conditions, a monitor under any name is DOWN iff it has exactly one open incident and UP iff it has none |
| HubRuns.StepKeepsInv | internal/hub/hub.go:495-538 | results, passes, heartbeats, mutes, such reloads and restarts each keep it |
| HubRuns.RestartKeepsInv | internal/hub/hub.go:134-155 | a restart establishes it over any well-formed tables |
| HubRuns.IncidentsMirrorStatus | internal/hub/hub.go:495-520 | over whole runs a monitor is DOWN iff it has exactly one open incident, UP iff none, no name has two, and each name's incidents are disjoint intervals with start <= end |
| HubRuns.MessagesAlternate | internal/hub/hub.go:522-538 | over undisturbed runs the messages of every monitor and agent strictly alternate DOWN and UP and match its incident |
| HubRuns.TransitionsAreAnnounced | internal/alerting/ntfy.go:78-120 | deduplication never suppresses a real transition, and a result without one sends nothing |
| HubRuns.DroppedMonitorLeaksIncident | internal/hub/hub.go:415-442 | dropping a DOWN monitor, re-adding it and one more failure leave two open incidents |
| LoginLimiter.LoginRateLimiter.AllowLogin | internal/api/auth.go:70-104 | the answer and the pruned record |
| LoginLimiter.LoginRateLimiter.RecordFailure | internal/api/auth.go:107-121 | the failure counted, and the lock from the tenth on |
| LoginLimiter.LoginRateLimiter.RecordSuccess | internal/api/auth.go:124-132 | counter and lock reset for a known IP only |
| LoginLimiter.LoginRateLimiter.CleanupRecords | internal/api/auth.go:136-159 | exactly the unlocked records without failures and without an attempt in two windows go, whatever the map order |
| LoginLimiter.CleanupDropsIff | internal/api/auth.go:134-159 | over histories: a cleanup drops an IP's record iff it has not failed since its last success and its last allowed attempt, if any, is two minutes old |
| LoginLimiter.RecordsRepresent | internal/api/auth.go:70-159 | every record, present or dropped, agrees with the IP's full history from now on |
| LoginLimiter.AllowRefinesHistory | internal/api/auth.go:70-132 | an attempt is allowed iff the IP is not locked out and fewer than five allowed attempts lie in the minute before |
| LoginLimiter.WindowNeverExceeded | internal/api/auth.go:87-103 | no one-minute window, wherever it starts, ever holds more than five allowed attempts |
| LoginLimiter.CleanupIsInvisible | internal/api/auth.go:134-159 | leaving all cleanups out of a run changes no answer |
| CollectorBackoff.Backoff.Allow | internal/agent/backoff.go:46-55 | true iff the collector is not failing or its retry time has come |
| CollectorBackoff.Backoff.Delay | internal/agent/backoff.go:91-100 | the doubling loop with int64 wrap-around |
| CollectorBackoff.Backoff.Failure | internal/agent/backoff.go:59-73 | counter and retry time after a failure; true for the first of a run |
| CollectorBackoff.Backoff.Success | internal/agent/backoff.go:77-88 | the run is over; true if there was one |
| CollectorBackoff.Backoff.Poll | internal/agent/agent.go:111-144 | one collector's part of a round, and whether it logs |
| CollectorBackoff.DelayIsIdealIff | internal/agent/backoff.go:90-100 | the loop is base*2^(n-1) capped at max for all n iff max is at most the first doubling of base to reach 2^62 |
| CollectorBackoff.OverflowsAboveCap | internal/agent/backoff.go:91-100 | above that cap some delay is negative |
| CollectorBackoff.DelayClosedForm | internal/agent/backoff.go:90-100 | for caps up to 2^62 the closed form holds, also for base > max, where the first delay is base |
| CollectorBackoff.LogLinesAlternate | internal/agent/agent.go:131-142 | a collector's log lines alternate between first failure and recovery, and tell whether it is failing |
| CollectorBackoff.FailingRun | internal/agent/agent.go:111-139 | in a failing run consecutive attempts are at least the delay apart |
| CollectorBackoff.AttemptedIff | internal/agent/backoff.go:46-88 | after any rounds, a collector is attempted iff it has not failed since it last worked or its last failed attempt is the delay for that many failures ago |
| CollectorBackoff.LoggedIff | internal/agent/agent.go:111-144 | and logged iff the attempt fails after none or works after some failed ones |
| CollectorBackoff.FailingAttemptsBounded | internal/agent/backoff.go:90-100 | attempts in a failing run over a span T are at most 1 + the doublings to the cap + T/max |
| AgentLoop.MetricBuffer.Add | internal/agent/buffer.go:25-46 | of the batches younger than the age limit, in order, and the new one, the newest `maxSize` are buffered; none is older |
| AgentLoop.MetricBuffer.Drain | internal/agent/buffer.go:49-61 | everything in order, leaving the buffer empty |
| AgentLoop.Agent.FlushBuffer | internal/agent/agent.go:149-159 | batches are delivered until one fails; that one goes back, the ones behind it are lost |
| AgentLoop.Agent.CollectAndPush | internal/agent/agent.go:80-99 | one round: flush, then send or buffer the new batch |
| AgentLoop.BatchesAccounted | internal/agent/agent.go:80-99 | after any run each produced batch is in exactly one of delivered, buffered, aged out, overflowed, dropped by a failed flush, once |
| AgentLoop.NoDuplicates | internal/agent/agent.go:80-99 | no batch is delivered twice or both delivered and elsewhere |
| AgentLoop.RoundStaysSmall | internal/agent/agent.go:149-159 | a round leaves at most two batches buffered, never overflows, and drops a batch iff two were buffered and the first failed |
| AgentLoop.RoundIs | internal/agent/agent.go:80-159 | where one round leaves every batch: delivered up to the first failure, that one buffered again unless too old when the new one is buffered, the ones behind it lost |
| AgentLoop.BufferNeverExceedsTwo | internal/agent/agent.go:80-99 | so over any run |
| AgentLoop.FlushLosesBatch | internal/agent/agent.go:153-156 | three failing rounds lose a batch |
| AgentLoop.RoundKeepsOrderIff | internal/agent/agent.go:90-98 | a round keeps production order iff it does not deliver its own batch after a failed flush |
| AgentLoop.DeliveredInOrder | internal/agent/agent.go:80-99 | runs of such rounds deliver in production order |
| AgentLoop.DeliveryCanReorder | internal/agent/agent.go:90-98 | three rounds that deliver out of order |
| WebSocketHub.StepKeepsInv | internal/api/websocket.go:65-133 | every step of loop, clients and callers keeps the hub invariant |
| WebSocketHub.ChannelsAreSafe | internal/api/websocket.go:65-109 | over all interleavings no client's channel is closed twice or sent to after closing |
| WebSocketHub.PanicsExactly | internal/api/websocket.go:65-109 | the steps that would panic are closing a closed client channel and sending to one |
| WebSocketHub.ReaderAsksOnce | internal/api/websocket.go:199-204 | the reader of a client gets at most one unregister request through |
| WebSocketHub.ClientsSeeASegment | internal/api/websocket.go:81-97 | each client is sent a contiguous in-order segment of the broadcast messages from its registration on, complete between deliveries |
| WebSocketHub.TakenInOrder | internal/api/websocket.go:81-133 | the loop takes messages in the order in which they were published without being dropped, that is, with fewer than 256 waiting, and at most 256 are still waiting |
| WebSocketHub.DeliverBlocksIff | internal/api/websocket.go:90-97 | handing over a message puts the loop into its own send iff the client's channel is full |
| WebSocketHub.BlockIsReachable | internal/api/websocket.go:81-97 | one client that does not read and 257 messages get it there |
| WebSocketHub.StuckStep | internal/api/websocket.go:65-97 | while the loop stands in that send it is not in its select, the only place that receives, so no rendezvous with it takes place |
| WebSocketHub.BlockedForever | internal/api/websocket.go:65-97 | hence over any continuation it stays there: no message taken, no client registered, removed or closed, no return |
| WebSocketHub.UnblockedCanStop | internal/api/websocket.go:99-119 | after `Stop`, a loop with no full client still to serve can return, and then every client's channel is closed once |
| WebSocketHub.QuitClosedOnceIff | internal/api/websocket.go:112-119 | over any run, `quit` is closed at most once, and stays so however the callers of `Stop` that have begun go on, iff nobody checked it between another caller's check and close |
| WebSocketHub.TwoStopsCloseTwice | internal/api/websocket.go:112-119 | two concurrent callers can both find it open and close it twice |

## Left out

- The 15-minute tier: in its statement `GROUP BY bucket` names both a source column and an alias, so what it groups by is a matter of SQLite's name resolution; nothing reads from it into another tier.
- Check functions, collectors, the push transport, ntfy delivery: foreign calls, modelled as arbitrary outcomes.
- SQLite, JSON, YAML, migrations, backups: tables are sequences and maps with the unique keys of internal/store/migrations.go:46-97; the order SQL leaves open is not relied on.
- Store errors: store calls succeed; so the branches that log and go on are not modelled.
- SSL expiry warnings and WebSocket broadcasts of a result; latencies and metadata of results in the hub's own state.
- Check-result statuses in `CheckTiers` are "up" and "down", the only ones the checkers produce.
- `ROUND` in the uptime columns and floating-point rounding: reals.
- Message texts, durations in messages and at the end of an agent incident's cause, log lines other than those of the backoff.
- Mutexes: methods of one object are atomic; the results loop and the staleness checker take turns (they use disjoint names of the incident table).
- Time zones: cron runs in UTC; the daily step takes its day as a parameter, of whole hours (up to 25 for metrics).
- `time.Time` and `time.Duration` limits: instants are unbounded integers (backoff delays and cron fields do wrap at 64 bits).
- The agent's last flush on shutdown.
- Registration attempts after the WebSocket hub has stopped, and the ping and read deadlines of its connections.
- Invalid UTF-8 in cron expressions: text is a sequence of Unicode scalar values.
- Password hashing, sessions, routing, configuration editing, the frontend.
- Tier selection and configuration defaults: single branches.
- The numbers of deleted 5-minute and hourly rows, which are only logged.
- IncidentsMirrorStatus: assumes no monitor is configured under a name of the form `agent:...`; `HarmlessRunsMirror` has the exact condition for any names.
- MessagesAlternate: assumes no mutes or restarts, which discard or reset what the alerter remembers.
- WindowsTileIff: assumes the ticker delivers every tick; a ticker that drops one leaves its window out.
