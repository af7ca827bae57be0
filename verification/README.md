# Scrapper service core, modelled in Dafny

This project models three parts of a scraping service. All three are sequential.

- **`MqttClient`.** The MQTT client's connection life cycle and its publish retry.
  - `init` registers credentials and a last will, then connects.
  - `on_connect` subscribes and announces the client online.
  - The reconnect loop `_retry_connection` has three tries, with exponential backoff and jitter.
  - `_publish` has three guards and a retry budget.
  - `on_disconnect` and the orderly `disconnect`.
- **The log clean-up job `clean_log_files`.**
  - It selects last month's log files by their `YYYY-MM` stamp.
  - It groups them per logger and writes one zip archive per logger.
  - It removes the archives of months a year or more back.
- **`TimedCompressionRotatingFileHandler`.** Its rollover is pushed to the end of the current month, its rotated files get a `.log` suffix, and the compressed files get a `.gz` name.

The model uses immutable records and pure functions throughout.

Every client operation returns a `Run`: the new client record, the trace of effects and whether an exception escaped. The effects are the transport calls, the sleeps and the log records.

The paho transport is replaced by oracles, which are functions from a call index to an outcome:
- `connects(i)` is the outcome of the connect in round `i` of a reconnect loop.
- `jitter(i)` is the draw of `random.randint(0, 1000)` in that round.
- `sends(k)` is the outcome of transport call `k` of one publish chain.

The clean-up job sees the file system as a `Disk`: the set of regular files and, among them, the zip archives. These are the two facts `os.path.isfile` and `zipfile.is_zipfile` report. Writing an archive and `os.remove` are the only changes the job makes. The clock reading and the two `glob` listings are parameters.

Modules, one per file:
- `MqttTypes` (`mqtt_types.dfy`)
- `Backoff` (`backoff.dfy`)
- `Publisher` (`publisher.dfy`)
- `Connection` (`connection.dfy`)
- `Calendar` (`calendar.dfy`): Python's proleptic Gregorian `datetime`.
- `MonthFormat` (`month_format.dfy`): `strftime`/`strptime` with `"%Y-%m"`.
- `Text` (`text.dfy`): `in`, `split` and `posixpath.join` on strings.
- `Occurrence` (`occurrence.dfy`): lists de-duplicated in first-occurrence order.
- `Jobs` (`jobs.dfy`): the helpers of the clean-up job.
- `CleanUp` (`clean_up.dfy`): `clean_log_files` itself.
- `Rollover` (`rollover.dfy`)

Where the documentation and the code disagree, the model follows the code. The documentation gives the backoff as `2^n` plus a jitter below one second. The code draws `randint(0, 1000)`, which includes 1000, so the jitter reaches a full second.

## Model

| member | source | states |
|---|---|---|
| Connection.FreshClientOnlyLogs | mqtt/mqtt_client.py:23-31 | A client just constructed keeps its topic list, is disconnected and has spent no tries. Until `init` gives it a paho client, publishing, the reconnect loop and `disconnect` each only log the "client undefined" error, and the client stays as constructed. |
| MqttTypes.StatusJsonInjective | mqtt/mqtt_client.py:53-57 | The four presence records serialise to four different texts. So subscribers can tell the last will (offline, unwilling) apart from the online and departure announcements. |
| MqttTypes.TopicNames | mqtt/mqtt_client.py:192-193 | The names unsubscribed are the subscribed topics' names, one per topic, in subscription order. |
| Backoff.DelayMs | mqtt/mqtt_client.py:198-201 | The delay after `n` tries lies between `1000·2^n` and `1000·2^n + 1000` ms. Both ends are inclusive, and the delay is never below one second. |
| Backoff.DelayNeverShrinks | mqtt/mqtt_client.py:198-201 | A later try never waits less than an earlier one, whatever jitter either draws. |
| Backoff.SecondsPart | mqtt/mqtt_client.py:198-201 | In whole seconds the delay is `2^n`, plus one only for the largest draw. The remaining milliseconds are the jitter. |
| Publisher.EverySendCarriesTheMessage | mqtt/mqtt_client.py:126-145 | Every transport call of a publish chain, retries included, sends the same serialised payload with the same topic, QoS and retain flag. |
| Publisher.ChainStopsBeforeSending | mqtt/mqtt_client.py:117-136 | An undefined client, a disconnected client, a spent budget and a payload with invalid keys each end the chain with a single log record and no transport call. The record is an error for an undefined client or invalid keys and a warning otherwise. The guards apply in the source's order, undefined client, then not connected, then spent budget, then invalid keys, and the first that applies names the record. |
| Publisher.SendsWithinBudget | mqtt/mqtt_client.py:123-145 | A chain never makes more transport calls than its budget. |
| Publisher.TransientFailuresExhaustBudget | mqtt/mqtt_client.py:123-145 | When every send fails transiently, a budget of `n` makes exactly `n` transport calls. |
| Publisher.TransientFailuresGiveUp | mqtt/mqtt_client.py:123-145 | ... and the chain ends with "Could not publish message". |
| Publisher.TransientFailuresWarnInOrder | mqtt/mqtt_client.py:123-145 | ... and its warnings are the `n` retry warnings, matching the failures in order, followed by exactly one "Could not publish message". |
| Publisher.TransientFailuresLogNoInfo | mqtt/mqtt_client.py:126-145 | ... and it logs nothing at info level. |
| Publisher.DeliveryStopsRetrying | mqtt/mqtt_client.py:126-145 | If the first success is attempt `j` and `j` lies within the budget, exactly `j + 1` transport calls are made. The chain ends with the "Sent" record of that success. |
| Publisher.DeliveryWarnsPerFailure | mqtt/mqtt_client.py:126-145 | ... and its warnings are the `j` retry warnings of the failures before that success. It never gives up. |
| Publisher.SerialiseValueErrorNeverSends | mqtt/mqtt_client.py:123-140 | When serialisation raises ValueError, a budget of `n` makes no transport call. Its warnings are exactly `n` queue-full retry warnings followed by one "Could not publish message", which is also its last record. |
| Connection.RoundEffects | mqtt/mqtt_client.py:98-108 | A reconnect round stops the network loop, connects, restarts the loop only if the connect returned, and sleeps the backoff for the tries already spent. |
| Connection.ScheduleAt | mqtt/mqtt_client.py:98-108 | Sleep number `a` of a loop waits the backoff for `tries + a`, with the jitter of round `a`. |
| Connection.ScheduleNeverShrinks | mqtt/mqtt_client.py:98-108 | The loop backs off: no sleep is shorter than an earlier one. |
| Connection.RoundCounts | mqtt/mqtt_client.py:98-108 | Each round has one connect, one loop stop and one sleep. It restarts the loop exactly when the connect returned and does nothing else. |
| Connection.RoundQuiet | mqtt/mqtt_client.py:98-108 | A round logs nothing, because a refused connect is swallowed silently. |
| Connection.RoundSleeps | mqtt/mqtt_client.py:105-107 | A round sleeps exactly once, for the backoff of the tries spent before it. |
| Connection.UnansweredRoundsSpendBudget | mqtt/mqtt_client.py:98-108 | When no connect is answered, the loop spends exactly the tries left, up to three. It returns normally and leaves the client disconnected with nothing else changed. |
| Connection.UnansweredRoundsConnect | mqtt/mqtt_client.py:98-108 | ... making exactly one connect and one loop stop per try left ... |
| Connection.UnansweredRoundsRestart | mqtt/mqtt_client.py:98-108 | ... restarting the network loop once per connect that returned ... |
| Connection.UnansweredRoundsSleep | mqtt/mqtt_client.py:98-108 | ... and sleeping through the backoff schedule of exactly the tries it spends. |
| Connection.RoundsEnd | mqtt/mqtt_client.py:98-108 | Whatever the broker does, the loop ends connected, with three tries spent, or by raising. Host, port, topics and the client object stay the same. |
| Connection.RoundsQuiet | mqtt/mqtt_client.py:98-108 | The loop logs nothing at any level. |
| Connection.RoundsBounded | mqtt/mqtt_client.py:98-108 | The loop makes at most one connect per try left. It never publishes or subscribes. |
| Connection.RetryWarnsUnlessRaised | mqtt/mqtt_client.py:93-112 | With a defined client, the retry ends with exactly one warning, which carries the `rc` it was handed. The exception is a socket error escaping the loop, in which case nothing is logged. Nothing is logged at info or error level. |
| Connection.UndefinedClientOnlyLogs | mqtt/mqtt_client.py:93-97 | Without a paho client, the retry and `disconnect` each log one error and do nothing else. |
| Connection.RetryExhausted | mqtt/mqtt_client.py:93-112 | When every connect goes unanswered, the retry spends the tries left and stays disconnected. Its last effect is the "could not connect" warning. |
| Connection.RetryExhaustedEffects | mqtt/mqtt_client.py:93-112 | ... making one connect and one loop stop per try, one loop start per returned connect, and sleeps that follow the backoff schedule. |
| Connection.RetryAckedStillWarns | mqtt/mqtt_client.py:98-112 | A CONNACK that arrives during the first round's sleep ends the loop connected, with one try counted. The retry still warns that it could not connect. |
| Connection.StatusPublishFirst | mqtt/mqtt_client.py:126-131 | A status publish from a connected client starts with the transport call that carries the serialised status record on `test/status` at QoS 2. |
| Connection.OnConnectAnnouncesOnline | mqtt/mqtt_client.py:71-89 | A CONNACK with rc 0 leaves the client connected with its tries reset. It first logs success, then subscribes to the whole topic list, then publishes the online status, which differs from the last will. It subscribes exactly once in all. |
| Connection.OnConnectRefusedRetries | mqtt/mqtt_client.py:71-91 | Any other rc never subscribes or publishes. The retry it starts makes at most one connect per try left. It is handed that rc: unless a socket error escapes, it gives up with the one warning carrying that code and logs nothing else. |
| Connection.OnDisconnectStopsPublishing | mqtt/mqtt_client.py:152-164 | A disconnect callback leaves the client disconnected with its tries unchanged and produces one log record and no retry. The record is at info level exactly when rc is 0. Every publish afterwards is refused with the not-connected warning. |
| Connection.ChainPublishesAndLogs | mqtt/mqtt_client.py:115-145 | A publish chain consists of transport publish calls and log records only. |
| Connection.DisconnectUnsubscribesAll | mqtt/mqtt_client.py:177-196 | `disconnect` unsubscribes every topic name in subscription order. It ends with disconnect, loop stop and the "Disconnecting" record. Disconnect and loop stop are each called exactly once. It leaves the client record to the disconnect callback. |
| Connection.DisconnectAnnouncesDeparture | mqtt/mqtt_client.py:183-190 | A connected client's first effect on `disconnect` is publishing the willful-departure status. A client already disconnected gets the not-connected warning instead. |
| Connection.InitWillBeforeConnect | mqtt/mqtt_client.py:33-69 | `init` sets the credentials and then the last will (offline, not willful, on `test/status`, QoS 2) before it first connects. It leaves the client defined. |
| Connection.InitRefusedExhausts | mqtt/mqtt_client.py:64-69 | A refused first connect followed by three unanswered retries makes four connects in all and logs that the broker is unavailable. The final warning carries the marker "-". |
| Connection.PreludeConnects | mqtt/mqtt_client.py:39-65 | The opening of `init` connects exactly once. |
| Calendar.NextDayOrdinal | jobs.py:23 | The next day is one day later in `datetime`'s day count. |
| Calendar.PrevNext | jobs.py:23 | Stepping a day back undoes stepping one forward. |
| Calendar.NextPrev | jobs.py:23 | Stepping a day forward undoes stepping one back. |
| Calendar.AddDaysOrdinal | custom_utils.py:47 | Adding `n` days moves the day count by `n`. |
| Calendar.SubAddDays | custom_utils.py:47-48 | Subtracting `n` days undoes adding them. |
| Calendar.SameMonthDaysBetween | custom_utils.py:52 | Within one month, at the same time of day, `(a - b).days` is the difference of the days of the month. |
| Calendar.AddDaysWithinMonth | custom_utils.py:47 | Within a month, adding days only advances the day of the month. |
| Calendar.YearLength | custom_utils.py:46-48 | A year has 366 days when the Gregorian rule makes it a leap year and 365 otherwise. |
| Rollover.MonthEndTrick | custom_utils.py:46-48 | Adding four days to day 28 and stepping back by the resulting day lands on the month's last day, by the Gregorian month lengths, at the same time of day. The sum overflows exactly in December of year 9999. |
| Rollover.RolloverToMonthEnd | custom_utils.py:38-53 | The rollover is moved by exactly the whole days left in the current month. In December of year 9999 computing it raises OverflowError instead. |
| Rollover.RolloverOffset | custom_utils.py:46-53 | The rollover cannot be computed exactly in December of year 9999. Wherever it is computed, it never moves earlier, moves by whole days and by at most thirty of them, and stays put exactly on the last day of the month. |
| Rollover.NamerInjective | custom_utils.py:35-36 | Different rotated files get different compressed names. |
| Rollover.SuffixInjective | custom_utils.py:25-27 | Different base suffixes stay different once `.log` is appended. |
| Text.ContainsOccurrence | jobs.py:67 | `month in path` holds whenever the stamp occurs at some position of the path ... |
| Text.ContainsWitness | jobs.py:67 | ... and only then. |
| Text.JoinSplit | jobs.py:128 | Joining the pieces of `split` with the separator gives back the string. |
| Text.SplitPiecesFree | jobs.py:128 | No piece of `split` contains the separator. |
| Text.BeforeFirstIsFirstPiece | jobs.py:149 | The text before the first separator is `split(...)[0]`. |
| Text.AfterLastIsLastPiece | jobs.py:91 | The text after the last separator is `split(...)[-1]`. |
| Text.PathJoinLast | jobs.py:42 | A name without `/` joined under a directory is the last component of the result. |
| Occurrence.GatherStep | jobs.py:67-68 | Appending an element met for the first time keeps a list in first-occurrence order. |
| Occurrence.FirstIndexBelow | jobs.py:67 | An element occurs first before position `k` exactly when it occurs before `k` at all. |
| Occurrence.PrecedingKeysDistinct | jobs.py:152-153 | Keys each met before the next are all different, so every logger is one dictionary entry. |
| MonthFormat.ParseFormat | jobs.py:34 | The stamp that `strftime("%Y-%m")` writes is read back by `strptime` as the same month. |
| MonthFormat.ParseShortMonth | jobs.py:129 | `strptime` also reads a month written without its leading zero. |
| MonthFormat.ParsedSpelling | jobs.py:129 | Everything `strptime` accepts is one of those two spellings of a representable month. |
| MonthFormat.ParseAccepts | jobs.py:129 | `strptime` accepts a string and yields a month exactly when the string spells that representable month, with or without the leading zero. |
| MonthFormat.TrailingTextRefused | jobs.py:129 | Any text after a complete stamp makes `strptime` raise. |
| MonthFormat.YearDigits | jobs.py:34 | Four-digit years are read back as the year written. |
| MonthFormat.DigitsYear | jobs.py:129 | Any four digits are the zero-padded spelling of their value. |
| Jobs.SkipGuardsSplitFiles | jobs.py:100-111 | Both guards skip every missing path. Existing files are split between them: a file passes the plain guard exactly when the zip guard skips it. |
| Jobs.FilesToZip | jobs.py:52-70 | The result lists exactly the log files that are not skipped and whose path contains the month stamp. Each is listed once, in the order first listed. |
| Jobs.Stem | jobs.py:149 | A logger name has no `.` and no `/`. |
| Jobs.StemIsSplit | jobs.py:149 | The logger is the first `.`-piece of the last `/`-piece of the path. |
| Jobs.StemOfLogFile | jobs.py:149 | A file named `<logger>.<rest>` under any directory belongs to `<logger>`. |
| Jobs.GroupLogFiles | jobs.py:135-158 | Every file not skipped is in its logger's group. Groups hold nothing else, hold each file once in the order first listed, and are never empty. The loggers appear in the order their first file is listed, each once. |
| Jobs.NothingToGroup | jobs.py:141-158 | When every file is skipped, the grouping is empty. |
| Jobs.ZipStep | jobs.py:80-97 | Archiving one more file, or skipping one that is no longer a plain file, keeps the archived list and the disk in step. |
| Jobs.ZipFiles | jobs.py:73-97 | Every listed file that is still a plain file is archived once, in list order, stored under its basename and removed; nothing else is removed. The archive being written counts as such a file, because it only becomes a zip when the block closes. If it is listed, it is archived into itself and removed, and no archive is left. Otherwise the archive stands, replacing whatever was at its path. |
| Jobs.Creation | jobs.py:129 | The moment a stamp is read as is a representable date-time in that stamp's year and month. |
| Jobs.RemoveGuards | jobs.py:122-129 | A listed path that the zip guard skips never counts as unreadable. For a path the guard lets through, `strptime` raises exactly when the stamp is unreadable. |
| Jobs.RemoveStep | jobs.py:122-132 | A listed archive is removed exactly when it is still an archive and its month comes before the cutoff. |
| Jobs.RemoveZipFiles | jobs.py:114-132 | Every listed archive whose month precedes the cutoff is removed, once even if listed twice. The first archive with an unreadable stamp stops the job, the archives after it are left alone, and a stop happens exactly when such an archive exists. |
| Jobs.RemovalOnlyExpired | jobs.py:114-132 | After the first `n` listed paths are handled, a file has disappeared exactly when it is an archive among them whose month precedes the cutoff. Nothing else changes. |
| CleanUp.PreviousMonth | jobs.py:22-23 | The day before the first of the month is the last day of the preceding month, at the same time of day, so January maps to December of the year before. It is undefined only for January of year 1, where Python overflows. |
| CleanUp.ArchiveStem | jobs.py:41-42 | An archive's basename starts with the month it was written for, and `strptime` reads that month back. |
| CleanUp.CutoffAsWritten | jobs.py:47 | `replace(year=year-1)` as written. It fails exactly for 29 February when the year before is not a leap year, and for year 1. |
| CleanUp.Cutoff | jobs.py:46-47 | The corrected cutoff falls in the same month a year earlier, on the same day or on that month's last day where the day does not exist. |
| CleanUp.MarchOfLeapYearRaises | jobs.py:22-47 | In every March of a leap year the previous month ends on 29 February, and the cutoff as written fails. |
| CleanUp.CutoffAgrees | jobs.py:47 | Wherever the cutoff as written exists, the corrected one equals it. |
| CleanUp.ExpiryKeepsTwelveMonths | jobs.py:46-49 | An archive expires exactly when its month lies twelve or more months before the previous month. |
| CleanUp.FreshArchiveKept | jobs.py:40-49 | The archive just written for the previous month never expires. |
| CleanUp.Locations | jobs.py:41-42 | Each logger's archive goes to `<base>/logs/<logger>/<YYYY-MM>.<logger>.logs.zip`. |
| CleanUp.ArchiveStep | jobs.py:40-44 | One more logger archived writes its archive, which stands unless its path was among the logger's own files. Its files are gone unless one is an archive still standing. |
| CleanUp.LocationsApart | jobs.py:41-42 | Different loggers' archives for the same month go to different paths. |
| CleanUp.GroupApart | jobs.py:40-44 | Groups filed under different loggers share no file. |
| CleanUp.ArchiveGroups | jobs.py:40-44 | There is one archive per logger, at that logger's location. Exactly the grouped files are removed, and an archive stands at the end exactly when its own path was not among its logger's files. |
| CleanUp.GroupedListed | jobs.py:141-158 | Groups that hold exactly the listed paths under their keys hold all of them between them. Their keys are exactly the keys of those paths. |
| CleanUp.GroupedMonth | jobs.py:33-37 | The groups of last month's log files hold exactly the selected files. Every logger has a selected file. |
| CleanUp.GroupMonth | jobs.py:33-37 | Last month's selected log files are grouped per logger, each logger once, with no `/` in its name. |
| CleanUp.ArchiveMonth | jobs.py:32-44 | Each logger with a selected log file gets one archive. Exactly the selected log files are removed, except those that are archives of other loggers and so still stand. Every archive stands and is a zip, except the archive of a logger named like the month itself when its path is a selected log file: that one is archived into itself and lost. |
| CleanUp.ArchivedState | jobs.py:32-44 | After archiving: the archives are those of loggers with a selected log file, carry the month's stamp, and stand unless archived into themselves. Every selected log file is archived and gone unless it is such a standing archive. Nothing else was removed, and the same archives are unreadable as before. |
| CleanUp.RemovalState | jobs.py:46-49 | Removing expired archives keeps all of that. Once the whole list is gone through, every expired listed archive is gone and the fresh archives stay. |
| CleanUp.CleanLogFiles | jobs.py:7-49 | The job as written. In January of year 1 nothing changes and the job fails. Otherwise the month's archives are written and the logs removed. The job ends in one of three ways: without error once every expired listed archive is removed; when the cutoff as written raises, before any archive is removed; or at the first unreadable archive. The disk at the end is exactly the archived disk with the expired archives taken away among those the removal got through. |
| CleanUp.CleanLogFilesCorrected | jobs.py:7-49 | The same job with the corrected cutoff, which raises only in year 1. |
| CleanUp.ArchiveThenExpire | jobs.py:32-49 | Once the previous month is known: archiving happens first. A cutoff that raised then ends the job, and otherwise the expired archives among those listed are removed up to the first unreadable one. The final disk is pinned exactly. |
| CleanUp.CleanedFrame | jobs.py:32-49 | The job adds no path but the archives it writes, and turns nothing into a zip but them. A path that is not a selected log file, not a listed archive and not an archive written keeps its place on disk and its kind. |
| CleanUp.LeapMarchRemovesNoArchive | jobs.py:22-49 | As written, every run in March of a leap year fails at the cutoff and leaves every archive on disk. |
| CleanUp.CorrectedJobStopsOnlyOnUnreadable | jobs.py:46-49 | With the corrected cutoff, from year 2 on, the job stops only at an unreadable archive. It runs through exactly when every listed archive is readable, and then every expired listed archive is gone. |

## Left out

- The paho transport is reduced to oracles: its network thread, sockets, `wait_for_publish` and its own message retries. A CONNACK arriving during a reconnect round is an oracle outcome (`AcceptedAcked`). Only the state change that `on_connect` makes then is modelled; the subscribe and publish it performs on the network thread are not in the loop's trace.
- Concurrency between the network thread and the caller is left out. Every operation runs to completion on its own.
- `time.sleep` becomes a `Sleep(ms)` effect and `random.randint` a jitter oracle. The `subprocess` call that reads the container name is left out; the client id plays no part in any modelled behaviour.
- Backoff.DelayMs: the delay is kept in integer milliseconds, not as the float `2**n + j / 1000`. The two agree up to float rounding.
- `json.dumps` is abstracted by its outcome: a text, a TypeError or a ValueError. The status records always serialise, to a fixed text per record.
- `on_message` and `on_publish` only log and are left out.
- File contents, zip entries, `open`, `glob` and gzip writing are left out. The disk is reduced to its set of files and its set of zip archives. `custom_rotator` copies and compresses file contents only, so it is left out too.
- `_skip_file` also returns True for `file is None`. The model's paths are strings, so that case cannot arise.
- Jobs.RemoveZipFiles: compares calendar fields. As written, `creation_dt < clean_up_dt` compares a naive date-time from `strptime` with an aware one derived from `datetime.now(timezone.utc)`. Python refuses that comparison with a TypeError; time zones are not modelled. As written, that TypeError would stop `_remove_zip_files` at the first archive it compares, in any month. The model compares the months as the code evidently intends, so the leap-year failure of the cutoff is shown on its own.
- Jobs.ZipFiles: assumes that `zipfile.ZipFile(location, "w")` opens. The archive directory `BASE_DIR/logs/<logger>/` is assumed to exist, although the `BASE_DIR/**/logs/**` listing does not imply it. Where it is missing, Python raises FileNotFoundError, and that error is not modelled.
- CleanUp.CleanLogFiles: takes `now` as a parameter and the two `glob` listings as given sequences. It does not model what `glob` would match. `BASE_DIR` is a parameter.
- MonthFormat.FormatYearMonth: covers years 1 to 9999, which `datetime` can represent. It writes four zero-padded digits. Non-ASCII digits accepted by `strptime`'s `\d` are not modelled.
- Rollover.ComputeRollover: takes the base handler's `super().computeRollover` result `r` and the current local date-time as inputs. The base handler's own interval arithmetic and `datetime.now()` are left out.
- `UTCFormatter` formats float timestamps as ISO text and is left out.
- The application's logging configuration, Celery tasks and entry point contain no logic of the modelled parts and are left out.
- Two tests assert on an attribute `retries`, which the client does not have (it counts `tries`). They are not modelled.
- The jobs' own `logging` output is not modelled.

## Findings

| source | as written | input that shows it | evidently intended | confidence | as-written member | corrected member |
|---|---|---|---|---|---|---|
| jobs.py:47 | The cutoff is `previous_month.replace(year=previous_month.year - 1)`. | Any `now` in March of a leap year, e.g. 2024-03-10. The previous month ends on 2024-02-29, and `replace(year=2023)` raises ValueError because 2023-02-29 does not exist. Archiving has already happened, the job fails before `_remove_zip_files`, and no archive is removed during that March. | The same month one year earlier: the same day where it exists, otherwise that month's last day. This keeps the twelve months up to the previous month. | not executed | CleanUp.CutoffAsWritten, CleanUp.MarchOfLeapYearRaises, CleanUp.CleanLogFiles, CleanUp.LeapMarchRemovesNoArchive | CleanUp.Cutoff, CleanUp.CutoffAgrees, CleanUp.ExpiryKeepsTwelveMonths, CleanUp.CleanLogFilesCorrected, CleanUp.CorrectedJobStopsOnlyOnUnreadable |
