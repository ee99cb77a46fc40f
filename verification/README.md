# ConnectionMonitor decision engine in Dafny

ConnectionMonitor pings a set of sites, records outages and slow
responses in a log table, and sends two kinds of e-mail:
- an emergency report, which covers the span during which at least one site was in a confirmed outage;
- a regular report, which gives per-site counts over the last few hours.

This project models the parts of the program that decide things:
- **The per-site state machine of `PingHandler.handlePing`.** It has hysteresis on the first failure, an emergency after a threshold, recovery, slowness against a learnt baseline, and the latency sample buffer that periodically recalibrates the baseline. The older variant in the root `PingThread` is the same machine with other constants.
- **The emergency counter and regular-report scheduler of `EmailReportHandler`.** This includes the two folds that build the report bodies.
- **The dispatch step of the packaged `PingThread`.** It maps a handler response to a log row and a counter update, and runs the baseline update with `roundToHour` stamps.
- **The ping-output parsers.** These are the regular-expression parsers of `PingAction` and the `indexOf`/`substring` parsers of the root `PingThread`.
- **The helpers these rely on:** `MoreMath`, `MoreDateFunctions`, `IOUtilities.parseDefaultYes`, the `PingSite` record, `CheckNeedEmailResponse`, and the key/value operations of `PingSitesConfigManager`.
- **A whole-system step (`Monitor`).** It composes one `handlePing` call with the report handler and the log, and keeps an invariant that the code never states: the emergency counter equals the number of sites whose emergency notification is outstanding.

How the model represents the program:
- **Time and latency.** Timestamps are `Date.getTime()` values in whole milliseconds. Latencies are reals, with -1 meaning "unknown".
- **Java semantics.** The 32-bit `int` wrap-around, the truncating `%`, the saturating `(int)` cast of a double, `indexOf` and `substring` are written out in `JavaSemantics`. `substring` can throw, so a call that may throw returns `Throws<T>`.
- **Code outside the model becomes function parameters:**
  - `Math.sqrt`;
  - `MoreDateFunctions.roundToHour`, whose body is not part of this model;
  - `Double.parseDouble`, which may throw `NumberFormatException`;
  - the `org.json` encoder and decoder.
- **Effects.** Each `synchronized` method becomes one atomic step. Database inserts and queries become a list of `SiteRecord` rows. E-mails become returned values.

Files and modules:
- `java_semantics.dfy` (`JavaSemantics`), `more_math.dfy` (`MoreMath`), `more_date_functions.dfy` (`MoreDateFunctions`) and `io_utilities.dfy` (`IOUtilities`): library semantics and helpers.
- `ping_site.dfy` (`PingSites`), `check_need_email_response.dfy` (`CheckNeedEmail`) and `site_records.dfy` (`SiteRecords`): records, and the two log queries.
- `latency_baseline.dfy` (`LatencyBaseline`): the slowness test, the update window and the sample buffer.
- `outage_tracking.dfy` (`OutageTracking`): the shared state machine, parameterised by its constants. These are 15 s / 5 h / 4000 in `PingHandler.java` and 30 s / 6 h / 4000 in the root `PingThread.java`.
- `ping_handler.dfy` (`PingHandlers`): `PingHandler.handlePing` with its log and counter effects.
- `email_report_handler.dfy` (`EmailReports`): the emergency counter, the scheduler and the report bodies.
- `monitor.dfy` (`Monitor`): the composed system and its invariant.
- `app_ping_thread.dfy` (`AppPingThread`): the packaged `PingThread`.
- `legacy_ping_thread.dfy` (`LegacyPingThread`): the root `PingThread`.
- `ping_action.dfy` (`PingAction`): output parsing with regular expressions.
- `ping_sites_config.dfy` (`PingSitesConfig`): the site table.

Where the code and its design description disagree, the model follows the code:
- **The window start is kept.** `decrementNumEmergencyReportSites` does not clear `startEmergency` when the counter reaches 0. The model only keeps "count ≥ 1 ⇒ start known" (`EmailReports.WellFormed`), not the converse.
- **An unknown latency is treated like any other value.** A reachable ping whose latency is -1 is still compared against the slowness threshold. If the update window is open, it is also appended to the sample buffer (`PingHandler.java:94-103`). `LatencyBaseline.UnknownLatencyUnderNonNegativeBaseline` shows that -1 is never slow only while the baseline is non-negative.
- **The two variants cannot be wired together.** The files come from different snapshots: the packaged `PingThread` calls a `handlePing(PingResponse)` that `PingHandler.java` does not define. Each file's logic is modelled on its own terms. `Monitor` composes `PingHandler.java` with `EmailReportHandler.java`. `AppPingThread` models the packaged dispatch over the response enum.

## Model

| member | source | states |
|---|---|---|
| `JavaSemantics.Wrap` | org/my/libraries/MoreMath.java:82 | two's-complement wrap-around: the result is an `int`, congruent to the input modulo 2^32, and equal to it when it already fits |
| `JavaSemantics.Rem` | org/my/libraries/MoreMath.java:82 | Java `%`: magnitude below the divisor's, sign of the dividend |
| `JavaSemantics.DoubleToInt` | PingHandler.java:101 | the `(int)` cast rounds toward zero inside the `int` range and saturates at `Integer.MIN_VALUE`/`MAX_VALUE` outside it |
| `JavaSemantics.IndexOf` | PingThread.java:279-280 | `indexOf`: -1 exactly when the pattern occurs nowhere, otherwise an occurrence with none before it |
| `JavaSemantics.IndexOfChar` | PingThread.java:295-296 | for a one-character pattern, `indexOf` is -1 iff the character is absent, and otherwise the first position holding it |
| `JavaSemantics.Substring` | PingThread.java:283 | `substring(b, e)` returns the characters `s[b..e)` exactly when `0 <= b <= e <= length`, and otherwise throws `StringIndexOutOfBoundsException` |
| `MoreMath.ModuloAsWritten` | org/my/libraries/MoreMath.java:80-83 | `((a % b) + b) % b` evaluated in 32-bit `int`: always an `int`, and for a positive divisor equal to the positive modulo whenever `a % b + b` does not overflow |
| `MoreMath.Modulo` | org/my/libraries/MoreMath.java:80-83 | the positive modulo the method documents: in `[0, b)` and congruent to `a` for `b > 0`, equal to Java `a % b` for `a >= 0`, in `(b, 0]` for `b < 0` |
| `MoreMath.ModuloAsWrittenAgreesForSmallDivisors` | org/my/libraries/MoreMath.java:82 | for divisors up to 2^30 the 32-bit expression equals the positive modulo for every `int` dividend, so every call in the monitor (divisor 24) is exact |
| `MoreMath.ModuloAsWrittenOverflows` | org/my/libraries/MoreMath.java:82 | `modulo(2147483646, 2147483647)` evaluates to -3 although the positive modulo is 2147483646 |
| `MoreMath.SumAppend` | org/my/libraries/MoreMath.java:62-72 | `sum(xs + [x]) == sum(xs) + x` |
| `MoreMath.SumOf` | org/my/libraries/MoreMath.java:62-72 | the accumulation loop returns the sum of the list, 0 for an empty list |
| `MoreMath.Mean` | org/my/libraries/MoreMath.java:41-55 | 0 for an empty list (no division by zero), otherwise `mean × n == sum` |
| `MoreMath.SquaredDeviationsNonNegative` | org/my/libraries/MoreMath.java:28-29 | the summation of `(average - x)^2` is never negative |
| `MoreMath.SquaredDeviationsAppend` | org/my/libraries/MoreMath.java:28-29 | the summation over `xs + [x]` adds exactly `(average - x)^2` |
| `MoreMath.Variance` | org/my/libraries/MoreMath.java:24-30 | non-negative, 0 for an empty list, otherwise `variance × n` equals the summation of squared deviations from the mean (population divisor `n`) |
| `MoreMath.StdDevOf` | org/my/libraries/MoreMath.java:16-34 | the loop gives 0 for an empty list and otherwise `sqrt` of the population variance |
| `MoreMath.SquaredDeviationsExpand` | org/my/libraries/MoreMath.java:28-29 | `Σ(m - x)^2 == Σx^2 - 2mΣx + n m^2` for any `m` |
| `MoreMath.SquaredDeviationsAtMean` | org/my/libraries/MoreMath.java:27-30 | at the mean, the summation equals `Σx^2 - n·mean^2` |
| `MoreMath.VarianceIsMeanSquareMinusSquaredMean` | org/my/libraries/MoreMath.java:27-30 | `stdDev^2` (before the square root) is the mean of squares minus the squared mean |
| `MoreMath.VarianceUsesPopulationDivisor` | org/my/libraries/MoreMath.java:30 | for `[0, 2]` the mean is 1 and the variance is 1, not the sample variance 2 |
| `MoreDateFunctions.TimeDiffInSeconds` | org/my/libraries/MoreDateFunctions.java:28-31 | `(a - b) / 1000` as a real; positive iff `a` is later, zero iff the same instant |
| `MoreDateFunctions.TimeDiffInMinutes` | org/my/libraries/MoreDateFunctions.java:23-26 | seconds / 60, which is the millisecond difference / 60 000 |
| `MoreDateFunctions.TimeDiffInHours` | org/my/libraries/MoreDateFunctions.java:18-21 | minutes / 60, which is the millisecond difference / 3 600 000; positive iff `a` is later |
| `MoreDateFunctions.TimeDiffInDays` | org/my/libraries/MoreDateFunctions.java:13-16 | hours / 24, which is the millisecond difference / 86 400 000 |
| `MoreDateFunctions.TimeDiffAntisymmetric` | org/my/libraries/MoreDateFunctions.java:13-31 | `diff(a, a) == 0` and `diff(a, b) == -diff(b, a)` at every unit |
| `IOUtilities.ToUpperCase` | org/my/libraries/IOUtilities.java:78 | upper-casing keeps the length and maps each character independently |
| `IOUtilities.ParseDefaultYes` | org/my/libraries/IOUtilities.java:76-82 | true exactly for the empty string, a one-letter `y`/`Y`, and a three-letter `yes` in any mix of cases, where the long `ſ` (which upper-cases to `S`) counts as `s` |
| `IOUtilities.ParseDefaultYesDependsOnlyOnUpperCase` | org/my/libraries/IOUtilities.java:78 | two inputs with the same upper-case form get the same answer |
| `IOUtilities.ParseDefaultYesExamples` | org/my/libraries/IOUtilities.java:79 | `""`, `y`, `Y`, `yes`, `Yes`, `YES` give true; `n`, `ye`, `" yes"`, `"yes "`, `no` give false |
| `CheckNeedEmail.NoEmailNeeded` | org/connectionmonitor/email/CheckNeedEmailResponse.java:16-19 | the no-argument constructor: `shouldSend` false and both dates `null` |
| `CheckNeedEmail.EmailNeeded` | org/connectionmonitor/email/CheckNeedEmailResponse.java:26-58 | the two-argument constructor: `shouldSend` true, and the getters return exactly the dates passed in |
| `PingSites.NewPingSite` | PingSite.java:19-26 | the constructor stores its five arguments unchanged |
| `PingSites.SetAvgLatency` | PingSite.java:77-80 | only the average changes |
| `PingSites.SetLatencyStdDeviation` | PingSite.java:86-89 | only the standard deviation changes |
| `PingSites.SetDeviationTolerance` | PingSite.java:95-98 | only the tolerance changes |
| `PingSites.NameAndAddressAreFinal` | PingSite.java:7 | after any sequence of setter calls, name and address are the constructor's |
| `SiteRecords.StoredRecord` | DBAccessHandler.java:55-74 | the row read back keeps name, status and time; a latency of -1 is written as SQL `NULL` and read back by `getFloat` as 0 |
| `SiteRecords.SelectReportLog` | DBAccessHandler.java:105-128 | the query returns exactly the log rows of that site with `start <= pingTime < end` (half-open) |
| `SiteRecords.SelectEmergencyReportLog` | DBAccessHandler.java:137-157 | the query returns exactly the log rows of any site with `start <= pingTime <= end` (closed) |
| `SiteRecords.SelectReportLogCounts` | DBAccessHandler.java:115 | each row in the site's half-open window comes back as many times as it is in the log; every other row, zero times |
| `SiteRecords.SelectEmergencyReportLogCounts` | DBAccessHandler.java:144 | each row in the closed window comes back as many times as it is in the log; every other row, zero times |
| `SiteRecords.SelectReportLogAppend` | DBAccessHandler.java:105-128 | the result for a log written in two parts is the first part's result followed by the second's, so rows keep their log order |
| `SiteRecords.SelectEmergencyReportLogAppend` | DBAccessHandler.java:137-157 | the same concatenation law for the emergency query |
| `LatencyBaseline.TruncatedHours` | PingHandler.java:101 | `(int) timeDiffInHours(now, last)` is the millisecond difference divided by 3 600 000, truncated toward zero, when that fits in an `int` |
| `LatencyBaseline.HourOfCycle` | PingHandler.java:101 | `modulo((int) hours, 24)` lies in `[0, 24)` and is the truncated hour count mod 24 |
| `LatencyBaseline.UpdateWindowSchedule` | PingHandler.java:101-103 | for a clock that moved forward, samples are taken iff elapsed whole hours mod 24 reach `hoursForUpdate`; none in the first `hoursForUpdate` hours, always from then until hour 24 |
| `LatencyBaseline.IsSlowMonotone` | PingHandler.java:94 | slowness is strict (the threshold itself is not slow) and upward closed, and with a non-negative deviation a larger tolerance makes no latency newly slow |
| `LatencyBaseline.SlowThresholdExample` | PingHandler.java:94 | with average 100, deviation 10, tolerance 2: 119 and 120 are not slow, 121 is |
| `LatencyBaseline.UnknownLatencyUnderNonNegativeBaseline` | PingHandler.java:94 | the sentinel -1 is never slow while the baseline's average, deviation and tolerance are non-negative |
| `LatencyBaseline.AddSample` | PingHandler.java:103-106 | appending a sample to a buffer below `sampleSize` keeps it below; below the limit only the buffer grows; on reaching it the site takes the buffer's mean and deviation, the buffer empties and `lastRecalculated` is the given stamp (the ping time in `PingHandler`); name, address and tolerance never change |
| `LatencyBaseline.SamplesAccumulate` | PingHandler.java:101-108 | while the buffer stays below `sampleSize`, a run of samples only appends their latencies in order |
| `LatencyBaseline.BufferFillRecalibrates` | PingHandler.java:103-106 | the sample that fills the buffer sets the baseline to the mean and deviation of all buffered values, stamps its own time and empties the buffer |
| `OutageTracking.NewSiteState` | PingHandler.java:47-51 | a new handler is up, not in emergency, with an empty buffer and `lastRecalculated` at creation, which satisfies the invariant |
| `OutageTracking.ResetEmergencyReporting` | PingHandler.java:165-169 | both flags are cleared together and nothing else changes |
| `OutageTracking.Step` | PingHandler.java:76-129 | one `handlePing` call. From a consistent state it keeps "`need ⇒ was`", an outage start while down, and a buffer below `sampleSize`. The first failure only arms `outageStart`. An emergency begins iff the site was already down, was not yet notified, and more than `outageEmergency` seconds have passed (strict). Recovery is reported iff a notified site becomes reachable. Slowness is reported iff the ping is reachable and its latency is slow. Emergencies open and close alternately. Unreachable pings leave the baseline alone. A reachable ping clears both flags and feeds the buffer only inside the update window. |
| `OutageTracking.Run` | PingHandler.java:76-129 | over any ping sequence, the invariant is kept, emergency events alternate, and the final notification flag is where the alternation ends |
| `OutageTracking.AlternationBalance` | PingHandler.java:87-120 | for alternating events, begins minus ends is the change in the open flag |
| `OutageTracking.RunBalance` | PingHandler.java:87-120 | over any ping sequence, emergency begins minus ends equals `Flag(need after) - Flag(need before)`, so it is 0 or 1 from a calm start |
| `OutageTracking.OutageAlertsAtMostOnce` | PingHandler.java:114-121 | during one unbroken outage at most one emergency begins, none ends, and one begins iff the flag became set |
| `OutageTracking.SilentWhileBelowThreshold` | PingHandler.java:114-122 | while every failure is within the threshold of the outage start, no event happens and the site stays down and un-notified |
| `OutageTracking.SubThresholdOutageIsSilent` | PingHandler.java:83-127 | an outage that never exceeds the threshold, followed by a reachable ping, produces neither an emergency begin nor an end, and leaves the site up |
| `PingHandlers.HandlePing` | PingHandler.java:76-129 | the effects of one call are log rows and counter updates stamped with the ping time. Status 1 is inserted iff the 15 s threshold is crossed (strictly) for a down, un-notified site. Status 2 iff a notified site recovers. Status 3 iff the ping is reachable and slow. At most two rows are inserted. The net counter change equals the change of `needEmergencyNotification`. |
| `PingHandlers.HandlePingWhenUnreachable` | PingHandler.java:110-128 | an unreachable ping produces nothing, or exactly insert status 1 followed by an increment |
| `PingHandlers.HandlePingWhenRecovering` | PingHandler.java:83-93 | a notified site that becomes reachable first inserts status 2, then decrements, and does not decrement again |
| `PingHandlers.HandlePingWhenReachable` | PingHandler.java:81-108 | any other reachable ping produces nothing, or a single status-3 row |
| `EmailReports.NewReportHandler` | EmailReportHandler.java:33-47 | count 0, no active sites, `lastRegularReport = roundToHour(now)`, and a station header of `""` for an empty name or `name + " - "` otherwise |
| `EmailReports.AddSiteNameToList` | EmailReportHandler.java:53-56 | appends the name and changes nothing else |
| `EmailReports.IncrementNumEmergencyReportSites` | EmailReportHandler.java:73-78 | adds 1; on becoming 1 the window starts 5000 ms before `t`, otherwise the start is unchanged; nothing else changes |
| `EmailReports.DecrementNumEmergencyReportSites` | EmailReportHandler.java:85-90 | subtracts 1 with no lower bound; asks to send iff the count becomes 0, for the window `[startEmergency, t + 5000]` |
| `EmailReports.CheckReportSend` | EmailReportHandler.java:62-67 | a report is due iff `timeDiffInHours(now, lastRegularReport) >= reportFrequency`; when due its window is `[lastRegularReport, roundToHour(now)]` and `lastRegularReport` advances to that end; otherwise nothing changes |
| `EmailReports.ScheduleReports` | EmailReportHandler.java:62-67 | repeated checks only ever change `lastRegularReport`, and every returned response is a send |
| `EmailReports.ReportWindowsAreContiguous` | EmailReportHandler.java:62-130 | successive regular reports cover back-to-back windows, from the initial `lastRegularReport` to the final one |
| `EmailReports.UnreachableCount` | EmailReportHandler.java:103-109 | the number of status-1 records |
| `EmailReports.MaxSlowLatency` | EmailReportHandler.java:104-114 | non-negative, at least every status-3 latency, and either 0 or one of them |
| `EmailReports.UnreachableCountSnoc` | EmailReportHandler.java:108-109 | one more record adds one to the count exactly when its status is 1 |
| `EmailReports.MaxSlowLatencySnoc` | EmailReportHandler.java:110-114 | one more record replaces the maximum exactly when its status is 3 and its latency is strictly larger |
| `EmailReports.MaxSlowLatencyUnique` | EmailReportHandler.java:104-114 | the three properties of `MaxSlowLatency` determine its value |
| `EmailReports.SummaryIsCountAndMax` | EmailReportHandler.java:106-114 | folding the records front to back, as the loop does, gives that count and that maximum |
| `EmailReports.SummarizeSite` | EmailReportHandler.java:103-115 | the per-site loop, front to back, computes exactly that count and that maximum |
| `EmailReports.Reportables` | EmailReportHandler.java:116 | keeps exactly the sections with a non-zero count or maximum, drawn from the input |
| `EmailReports.ReportablesAppend` | EmailReportHandler.java:101-121 | the filter distributes over concatenation, so kept sections stay in input order |
| `EmailReports.ReportablesSingleton` | EmailReportHandler.java:116 | one section is kept exactly when it is reportable |
| `EmailReports.ReportablesMultiset` | EmailReportHandler.java:116 | each reportable section is kept as many times as it occurs; no other section is kept |
| `EmailReports.ReportSections` | EmailReportHandler.java:101-121 | each reported section is an active site's summary over `[lastRegularReport, end)` and is reportable, and every reportable active site is reported |
| `EmailReports.ReportSectionsAppend` | EmailReportHandler.java:101-121 | sections follow the order of the active-name list; a name added twice reports twice |
| `EmailReports.ReportSectionsSingleton` | EmailReportHandler.java:101-120 | one name gives its summary when that is reportable, and nothing otherwise |
| `EmailReports.RegularReportBody` | EmailReportHandler.java:101-124 | the body is "Nothing to report." iff no active site is reportable, and otherwise the non-empty list of reported sections |
| `EmailReports.EmergencyLinesCount` | EmailReportHandler.java:143-151 | one line per status-1 or status-2 record |
| `EmailReports.EmergencyLinesIndexed` | EmailReportHandler.java:143-151 | a strictly increasing map from lines to records: each line is its record's "became unreachable" or "became reachable again" line, and every status-1 or status-2 record has one |
| `EmailReports.EmergencyLinesOfSlowRecords` | EmailReportHandler.java:143-151 | status-3 records contribute no line |
| `EmailReports.SendRegularReport` | EmailReportHandler.java:97-131 | the e-mail goes to `notifyList` with the station header in the subject, and its content covers `[lastRegularReport, end]`; `lastRegularReport` becomes `end` |
| `EmailReports.SendEmergencyReport` | EmailReportHandler.java:138-154 | the e-mail goes to `emergencyNotifyList`, and its body is the lines of the closed-window query |
| `EmailReports.ApplyCounterOp` | EmailReportHandler.java:73-90 | one counter call keeps "count ≥ 1 ⇒ window start known" |
| `EmailReports.ApplyCounterOps` | EmailReportHandler.java:73-90 | any sequence of counter calls keeps that invariant |
| `EmailReports.OpenEmergencyKeepsItsStart` | EmailReportHandler.java:73-78 | while the count stays at least 1, no report is sent and the window start is the first site's |
| `EmailReports.EmergencyCycleWindow` | EmailReportHandler.java:73-90 | one cycle from 0 back to 0, however the sites overlap in between, sends exactly one report, for `[t0 - 5000, t1 + 5000]` |
| `Monitor.ApplyEffects` | PingHandler.java:89-120 | performing a call's effects appends its rows to the log, changes the counter by the effects' net delta, leaves the report schedule alone, and sends nothing without a decrement |
| `Monitor.HandlePingEmails` | PingHandler.java:83-93 | a ping sends an emergency e-mail iff it is the recovery of the last notified site; the e-mail covers the log including the new status-2 row over `[startEmergency, now + 5000]` |
| `Monitor.NoRecoveryNoEmails` | PingHandler.java:81-128 | a ping that is not a notified site's recovery never decrements the counter |
| `Monitor.PingStep` | PingHandler.java:76-129 | one step of the whole monitor keeps the invariant "counter == sites with an outstanding notification", and appends to the log. A regular report goes out iff it is due. An emergency report goes out iff the last notified site recovers. |
| `Monitor.CounterNonNegative` | EmailReportHandler.java:85-90 | under the invariant the counter never goes below 0 nor above the number of sites |
| `Monitor.InitialSystemValid` | PingHandler.java:47-48 | fresh handlers and a fresh report handler satisfy the invariant |
| `AppPingThread.HandleResponse` | org/connectionmonitor/app/PingThread.java:94-119 | `SITE_UNREACHABLE` increments and inserts status 1; `SITE_REACHABLE_AGAIN` inserts status 2 and decrements; `SITE_LATENCY_SLOW` inserts status 3; `NO_PROBLEMS` does nothing. An emergency message is built iff the decrement asks for it, with its window. |
| `AppPingThread.DispatchAll` | org/connectionmonitor/app/PingThread.java:101-119 | over many responses, every emergency window returned is due and ends 5 s after a `SITE_REACHABLE_AGAIN` response among them, at most one per such response |
| `AppPingThread.DispatchCounts` | org/connectionmonitor/app/PingThread.java:101-107 | over many responses, the counter moves by unreachables minus recoveries, and a run of `NO_PROBLEMS` responses leaves the log untouched |
| `AppPingThread.CheckNeedPingSiteUpdate` | org/connectionmonitor/app/PingThread.java:125-129 | true iff the hour of the 24-hour cycle is at least 5; never within the first 5 hours |
| `AppPingThread.HandlePingSiteUpdate` | org/connectionmonitor/app/PingThread.java:135-145 | the buffer stays below 4000; below it only appends; on reaching it the baseline is the buffer's mean and deviation, `lastRecalculated = roundToHour(now)` and the buffer is emptied |
| `AppPingThread.Iteration` | org/connectionmonitor/app/PingThread.java:72-78 | one loop iteration dispatches the response and runs the baseline update only for a reachable ping when the update is needed |
| `LegacyPingThread.AppendDailyReport` | PingThread.java:218-224 | an empty message clears the report; any other message appends `"\n" + msg` |
| `LegacyPingThread.AppendAllWithoutClear` | PingThread.java:218-224 | with no empty message, the report is the old one followed by each message on its own line |
| `LegacyPingThread.AppendAllAfterClear` | PingThread.java:218-224 | after the last empty message, the report is exactly the later messages, each on its own line |
| `LegacyPingThread.DailyReportKeepsMessagesSinceLastClear` | PingThread.java:218-224 | after a sequence of messages, the report holds exactly the messages after the last empty one |
| `LegacyPingThread.ParsePingIP` | PingThread.java:290-301 | no parentheses: the line unchanged. `(` before `)`: the text strictly between them. `)` without `(`: the prefix before `)`. `(` after the first `)`, or no `)`: `substring` throws. |
| `LegacyPingThread.ParsePingLatency` | PingThread.java:273-288 | neither `time=` nor ` ms`: -1. Both in order: `parseDouble` of the text between. Only ` ms`, at index 4 or later: `parseDouble` of the text from index 4 up to it. Otherwise `substring` throws. |
| `LegacyPingThread.ReadPingOutput` | PingThread.java:254-268 | the read loop takes the IP from line 0 and, only for a reachable ping, the latency from line 1; an unreachable ping keeps latency -1 |
| `LegacyPingThread.LegacyHandlePing` | PingThread.java:303-361 | the same state machine with the thread's current `outageEmergency`, `hoursForUpdate` and `sampleSize`. "Emergency in" iff a down, un-notified site's outage strictly exceeds `outageEmergency` seconds; "emergency over" iff a notified site recovers; the slow line iff a reachable ping is slow; a reachable ping clears the outage |
| `LegacyPingThread.SetOutageEmergency` | PingThread.java:203-206 | sets the emergency threshold and leaves the other two constants |
| `LegacyPingThread.SetHoursForUpdate` | PingThread.java:168-171 | sets the hours-of-cycle threshold and leaves the other two constants |
| `LegacyPingThread.SetSampleSize` | PingThread.java:173-176 | sets the sample count and leaves the other two constants |
| `LegacyPingThread.LegacyThresholdFollowsSetter` | PingThread.java:24 | with the initial value the threshold is 30 s; after `setOutageEmergency(n)` it is `n` s |
| `PingAction.QuadEndComplete` | org/connectionmonitor/ping/PingAction.java:56 | backtracking cannot shorten a digit group, so each start position has at most one dotted-quad match |
| `PingAction.ParsePingIP` | org/connectionmonitor/ping/PingAction.java:53-63 | `""` iff the line has no `\b` dotted quad; otherwise the quad with the rightmost start, as the greedy leading `.*` finds it |
| `PingAction.ParsePingIPIsDottedQuad` | org/connectionmonitor/ping/PingAction.java:56 | the result is `""` or four dot-joined groups of 1-3 digits |
| `PingAction.LatencyEndUnique` | org/connectionmonitor/ping/PingAction.java:73 | for a given `time=`, the group end before ` ms` is unique |
| `PingAction.ParsePingLatency` | org/connectionmonitor/ping/PingAction.java:70-84 | -1 when no `time=… ms` match exists; otherwise `parseDouble` of the group of the rightmost match |
| `PingAction.LatencyGroupText` | org/connectionmonitor/ping/PingAction.java:73 | the text handed to `parseDouble` is 1-6 digits, any one character, then 1-3 digits |
| `PingAction.FirstIPIsFirst` | org/connectionmonitor/ping/PingAction.java:34-39 | the IP is `""` iff no line yields one, and otherwise the first line's non-empty result |
| `PingAction.FoldResultsStick` | org/connectionmonitor/ping/PingAction.java:34-44 | once the fold has an IP, a latency other than -1, or an exception, later lines change none of them |
| `PingAction.PingSite` | org/connectionmonitor/ping/PingAction.java:23-46 | the line loop returns the first IP. The latency is -1 for an unreachable ping, whatever the output. For a reachable ping it is the first latency found, or the first `NumberFormatException`. |
| `PingSitesConfig.AddPingSite` | PingSitesConfigManager.java:33-41 | the name maps to the site's JSON text, replacing any earlier entry; every other key is unchanged |
| `PingSitesConfig.RemovePingSite` | PingSitesConfigManager.java:47-50 | only that key goes; removing an absent key changes nothing |
| `PingSitesConfig.IsNameInConfigAsWritten` | PingSitesConfigManager.java:57-71 | as written, true iff the table has any key at all, whatever the name |
| `PingSitesConfig.IsNameInConfigAsWrittenIgnoresName` | PingSitesConfigManager.java:64 | a table holding only `home` answers true for `office` |
| `PingSitesConfig.IsNameInConfig` | PingSitesConfigManager.java:57-71 | with the `;` removed, true iff the name is a key |
| `PingSitesConfig.SitesFromConfig` | PingSitesConfigManager.java:149-177 | at most one site per key; each site is named by its key and holds that key's decoded JSON |
| `PingSitesConfig.SitesFromConfigComplete` | PingSitesConfigManager.java:154-173 | every key whose JSON decodes yields its site; only entries that fail to decode are skipped |
| `PingSitesConfig.SitesFromConfigNamesDistinct` | PingSitesConfigManager.java:154-173 | with each key enumerated once, no two loaded sites share a name |
| `PingSitesConfig.AddedSiteLoads` | PingSitesConfigManager.java:33-41 | when the JSON library reads back what it writes, an added site loads back unchanged |

## Left out

- **Process execution and stream reading.** `Runtime.exec`, `waitFor` and `readLine` are not modelled. The ping's exit status and output lines are inputs.
- **Threads.** `run` loops, `sleep`, `join`, `ShutDownableThread`, `RegularReportThread` and `MonitorApp` are not modelled. `synchronized` methods are atomic steps of one sequential interleaving.
- **The database.** `DBAccessHandler` SQL, connections and site keys are replaced by a list of rows and the two filters the queries apply. `buildEmergencyReportMessage`, called by the packaged `PingThread`, is not part of this model. The emergency window it would use is returned instead.
- **E-mail.** `Emailer` (javax.mail) is not modelled. E-mails are returned values.
- **Text.**
  - Date formatting (`SimpleDateFormat`, `formatDateAsTimestamp`) and `Double.toString` are not modelled; report contents are kept structured.
  - The two `System.out` lines of the root `PingThread.handlePing` ("Emergency in", "Emergency over") are modelled as returned values. Other console output is not modelled.
  - The file log written by `writeToLog` is not modelled, except for one line: the slow-ping line of the root `PingThread.handlePing` (PingThread.java:323) is returned as `SlowLine`.
- **Properties-file and JSON I/O.**
  - `importConfig`/`exportConfig` are not modelled.
  - The `org.json` encoding is a pair of function parameters.
  - `DBEmailerConfigManager` and `MonitorApp.getPingSitesFromConfig` are not modelled.
- **Floating point.** IEEE double rounding is not modelled; latencies are exact reals. `Math.sqrt` and `Double.parseDouble` are parameters.
- **The wall clock.** `new Date()` is passed in as `now`. `roundToHour`, whose body is not part of this model, is a parameter.
- AppPingThread.Iteration: takes one `now` for both reads of the clock, in `checkNeedPingSiteUpdate` (org/connectionmonitor/app/PingThread.java:127) and in `handlePingSiteUpdate` (line 140). An hour boundary that falls between the two reads is not modelled.
- **Row order of the queries.** The two `SELECT`s have no `ORDER BY`, so the database may return rows in any order. The model returns them in log order. `SiteRecords.SelectReportLogCounts` and `SiteRecords.SelectEmergencyReportLogCounts` state what holds in any order.
- **Regular-expression corners.** `.` is taken to match every character of a line, and `\d` and `\b` are the ASCII classes. Line terminators inside a line, and the Unicode word characters of older Java `\b`, are not modelled.
- **Upper-casing.** `IOUtilities.ToUpperCase` models `toUpperCase` only for ASCII letters and the two non-ASCII characters that upper-case to `I` and `S`. That covers every answer `parseDefaultYes` can give, but it is not full Unicode case mapping.
- **Setters and getters.**
  - The root `PingThread` setters `setOutageEmergency`, `setHoursForUpdate` and `setSampleSize` are modelled as `LegacyPingThread.SetOutageEmergency`, `SetHoursForUpdate` and `SetSampleSize` on the `Tuning` that `LegacyPingThread.LegacyHandlePing` takes.
  - The other root `PingThread` setters (PingThread.java:143-216) and the `PingSite` getters are plain field access, carried by the fields of `SiteState` and `PingSite`.
- MoreMath.ModuloAsWritten and MoreMath.Modulo: require a non-zero divisor. `modulo(a, 0)` throws `ArithmeticException`, which is not modelled; every call in the monitor passes 24.
- AppPingThread.DispatchCounts: states the counter movement and the log for all-`NO_PROBLEMS` runs, not the exact list of rows, which `AppPingThread.HandleResponse` gives per response.
- EmailReports.ApplyCounterOps: states only the invariant it keeps. What a cycle sends is stated by `EmailReports.EmergencyCycleWindow` and `EmailReports.OpenEmergencyKeepsItsStart`.

## Findings

| source | as written | input that shows it | evidently intended | confidence | as-written member | corrected member |
|---|---|---|---|---|---|---|
| org/my/libraries/MoreMath.java:82 | `((dividend % divisor) + divisor) % divisor` in 32-bit `int`, where `dividend % divisor + divisor` can overflow | `modulo(2147483646, 2147483647)` evaluates to -3 | the positive modulo in `[0, divisor)`, here 2147483646 | not executed | `MoreMath.ModuloAsWritten` (with `MoreMath.ModuloAsWrittenOverflows`) | `MoreMath.Modulo` |
| PingSitesConfigManager.java:64 | `if(...equals(siteName));` has an empty body, so the block after it sets the flag on the first key | a table holding only `home`, asked about `office`, answers true | true iff the name is a key, as the method's comment at lines 52-56 says | not executed | `PingSitesConfig.IsNameInConfigAsWritten` (with `PingSitesConfig.IsNameInConfigAsWrittenIgnoresName`) | `PingSitesConfig.IsNameInConfig` |

The modulo overflow cannot be reached from the monitor itself: every call uses divisor 24, and `MoreMath.ModuloAsWrittenAgreesForSmallDivisors` covers all divisors up to 2^30.
