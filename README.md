# Xray and Artifactory support tools, modelled in Dafny

This project models the decision logic of a set of JFrog support scripts and
proves what that logic promises. Every file system walk, HTTP call and hash
primitive is replaced by a parameter: a sequence of lines, a sequence of
`(name, lines)` files, a reply value, or a function such as `sha1` or `md5`.

- **Scan timeline** (`log_time`, `timeline_rules`, `timeline_engine`,
  `timeline_status`, `trace_discovery`, `timeline_report`) models
  `xray_scan_timeline_traceid.py`:
  - it reads the leading `YYYY-MM-DDTHH:MM:SS.<digits>Z` timestamp of a log
    line at millisecond precision;
  - it finds the 16-hex trace ids that appear next to an artifact and keeps
    each id's business lines;
  - it applies a per-phase rule table: a start scans forward and takes the
    first hit, an end scans backward and takes the last, and the
    contextual-analysis and exposure ends are ordered lists of tagged
    patterns;
  - it picks each phase's fallback ("suspicious") line and derives each
    phase's status;
  - it computes the overall span and the duration strings, then lays out the
    JSON document or the table rows.

  The engine is written once and takes a rule table. `TimelineRules.Rule`
  instantiates the table for both copies: `StatusDuration` for
  `logs-xray-status-duration`, which prints JSON or a table, and
  `StatusTimeline` for `scan-status-timeline`, which prints a table only and
  differs in two start phrases.
- **Index requests** (`index_requests`) models
  `xray-indexer-request-trace.py`: the log-file selection, the request-line
  match, the priority classifier, the timestamp with its `datetime.min`
  fallback, the counters, the newest-first sort and the grouping.
- **Repository index** (`repo_index`) models `indexer.py`:
  - the per-package-type filter table;
  - the in-place `support` annotation over an array of file records;
  - the reply handling of the scan-status and force-reindex calls, including
    the `-cache` name of a remote repository;
  - the status merge over the file array.
- **License decomposer** (`base64`, `history`, `license`) models both
  identical copies of `history_manager.py` and `license_decomposer.py`:
  - the history record table, as a class whose methods update it;
  - base64 as in section 4 of RFC 4648, with the round trip proved;
  - the OpenSSL `EVP_BytesToKey` derivation of key and IV over an abstract
    MD5 (RFC 1321), and the `Salted__` header split;
  - the lenient padding removal, which is laxer than section 6.3 of RFC 5652;
  - key extraction from a parsed JSON value, and the CR LF cleaning.
- **SHA-1 validator** (`sha1_validator`) models `validator.py`: the file-name
  predicate, the validation decision, the time-window filter, the counters
  (a class) and the exit status.
- **Chunk storage** (`chunk_storage`) models `chunk-based-storage.py`: the
  chunk size parser, the fixed-size chunking and the duplicate statistics.
- **Remote cache check** (`remote_cache`) models `check_on_remote_cache.py`:
  the checklist parser, the HEAD status mapping and the bucket counting over
  the colored output lines.
- **Bundle to logs** (`bundle_logs`) models `bundle2logs.py`: the output
  directory, the node lookup in the service manifest, the selection, dedup
  and `.gz` renaming of log entries, and the timestamp and permission rules.
- **SHA-1 prefix generator** (`prefix_generator`) models `generate_file.py`:
  the prefix validation and the smallest-suffix search over an abstract
  SHA-1.

The shared modules `Wrappers`, `Bytes`, `Text`, `Search`, `Json` and
`Sorting` hold Option/Result, ASCII text helpers, order-preserving filters,
an ordered JSON value and a stable descending insertion sort.

## Model

| member | source | states |
|---|---|---|
| LogTime.DigitRun | logs-xray-status-duration/xray_scan_timeline_traceid.py:8 | the run of fraction digits is the longest all-digit prefix of the text after the seconds |
| LogTime.ReadStamp | logs-xray-status-duration/xray_scan_timeline_traceid.py:8-11 | on a line that has the timestamp prefix, each of year, month, day, hour, minute and second is the decimal value of its digits in the line (every two-digit field below 100), and the fraction is exactly the non-empty digit run between the '.' and the 'Z' |
| LogTime.Millis | logs-xray-status-duration/xray_scan_timeline_traceid.py:12 | the milliseconds are the first three fraction digits, right-padded with zeros (".5" gives 500), so they are below 1000 |
| LogTime.ExtractTime | logs-xray-status-duration/xray_scan_timeline_traceid.py:7-14 | a time is returned iff the line begins with `YYYY-MM-DDTHH:MM:SS.<digits>Z`; the time is a valid date-time whose year, month, day, hour, minute and second are the fields the line's digits give |
| LogTime.ExtractTimeMillis | logs-xray-status-duration/xray_scan_timeline_traceid.py:7-14 | the microsecond of an extracted time is 1000 times the first three fraction digits, right-padded with zeros |
| LogTime.LineInstantOf | logs-xray-status-duration/xray_scan_timeline_traceid.py:7-14 | on a line `strptime` accepts, the instant in milliseconds is absent exactly when ExtractTime gives none, and otherwise is that time's millisecond count |
| LogTime.MicrosOrder | logs-xray-status-duration/xray_scan_timeline_traceid.py:257-260 | date-time comparison coincides with comparison of microsecond counts, in both directions, and equal counts mean equal times |
| LogTime.MillisFollowMicros | logs-xray-status-duration/xray_scan_timeline_traceid.py:12-13 | the millisecond instant is the microsecond count divided by 1000 and keeps the order of times |
| LogTime.MinDateTimeFirst | xray-indexer-request/xray-indexer-request-trace.py:56 | `datetime.min` is a valid time with count 0 that no time precedes |
| LogTime.MicrosFromMin | xray-indexer-request/xray-indexer-request-trace.py:56 | every count is non-negative, and it is 0 exactly for `datetime.min` |
| TimelineRules.Rule | logs-xray-status-duration/xray_scan_timeline_traceid.py:53-84 | the ca and exposure phases end by the ordered tagged pattern lists; every other phase ends by one phrase pair |
| TimelineRules.VariantsDiffer | scan-status-timeline/xray_scan_timeline_traceid.py:53-64 | the two copies share every end rule and every start rule except indexer and analysis, whose phrases are "Start processing msg" and "processing msg for artifact" in the table-only copy |
| TimelineEngine.StartTime | logs-xray-status-duration/xray_scan_timeline_traceid.py:144-151 | a start rule finds a time iff some line contains both phrases and carries a timestamp |
| TimelineEngine.StartTimeIsFirst | logs-xray-status-duration/xray_scan_timeline_traceid.py:144-151 | the start time is that of a hitting line before which no line hits |
| TimelineEngine.StartTimeAt | logs-xray-status-duration/xray_scan_timeline_traceid.py:146-151 | the first line that holds both phrases and a timestamp gives the start time |
| TimelineEngine.EndTime | logs-xray-status-duration/xray_scan_timeline_traceid.py:144-151 | an end rule finds a time iff some line hits |
| TimelineEngine.EndTimeIsLast | logs-xray-status-duration/xray_scan_timeline_traceid.py:144-151 | the end time is that of a hitting line after which no line hits |
| TimelineEngine.EndTimeAt | logs-xray-status-duration/xray_scan_timeline_traceid.py:146-151 | the last line that holds both phrases and a timestamp gives the end time |
| TimelineEngine.MatchedIff | logs-xray-status-duration/xray_scan_timeline_traceid.py:146-151 | a pattern is matched exactly when some line holds both phrases and a timestamp |
| TimelineEngine.UntimedLineIgnoredByStart | logs-xray-status-duration/xray_scan_timeline_traceid.py:147-151 | inserting a line without a timestamp anywhere never changes a start time |
| TimelineEngine.UntimedLineIgnoredByEnd | logs-xray-status-duration/xray_scan_timeline_traceid.py:147-151 | inserting a line without a timestamp anywhere never changes an end time |
| TimelineEngine.Winner | logs-xray-status-duration/xray_scan_timeline_traceid.py:97-107 | the winning pattern is the first in list order that any line hits; there is none iff no pattern is hit |
| TimelineEngine.PriorityEndTime | logs-xray-status-duration/xray_scan_timeline_traceid.py:97-107 | a tagged end is the winner's tag with the last hitting line's time for the winner's pattern |
| TimelineEngine.EarliestPatternWins | logs-xray-status-duration/xray_scan_timeline_traceid.py:133-143 | when pattern k hits some line and a later pattern hits a line further down, the winner is no later than k and the stored tag is the winner's |
| TimelineEngine.LastResortSkip | logs-xray-status-duration/xray_scan_timeline_traceid.py:70-76 | with DONE, FAILED, SKIP, SKIP first and the fourth pattern hit, an end is found, and its tag is SKIP iff neither the DONE nor the FAILED pattern is hit |
| TimelineEngine.PypiNotSupportedIsSkip | scan-status-timeline/xray_scan_timeline_traceid.py:66-103 | in both copies a "Package type Pypi is not supported" line gives the ca phase an end, tagged SKIP iff no line matches the contextual_analysis DONE or FAILED pattern, wherever that line sits |
| TimelineEngine.Window | logs-xray-status-duration/xray_scan_timeline_traceid.py:86-151 | a phase window's start is the start rule's time; a pair end has no tag; a tagged end has a time iff it has a tag |
| TimelineEngine.PriorityWindow | logs-xray-status-duration/xray_scan_timeline_traceid.py:97-107 | a tagged end's window carries exactly the time and tag of the priority search, or neither |
| TimelineEngine.FallbackText | logs-xray-status-duration/xray_scan_timeline_traceid.py:160-168 | "INCOMPLETE" when no line is suspicious for the phase; otherwise the last 120 characters (all of it when shorter) of the stripped last suspicious line |
| TimelineEngine.ScanForward | logs-xray-status-duration/xray_scan_timeline_traceid.py:146-151 | the forward loop returns the start rule's time |
| TimelineEngine.ScanBackward | logs-xray-status-duration/xray_scan_timeline_traceid.py:146-151 | the reverse loop returns the end rule's time |
| TimelineEngine.TryLine | logs-xray-status-duration/xray_scan_timeline_traceid.py:147-151 | one line yields a time exactly when it holds both phrases and a timestamp, and that time is the line's instant |
| TimelineEngine.PriorityAt | logs-xray-status-duration/xray_scan_timeline_traceid.py:98-107 | when pattern k is the first that matches, the priority end is pattern k's end time with its status |
| TimelineEngine.ScanPriority | logs-xray-status-duration/xray_scan_timeline_traceid.py:97-107 | the nested pattern-then-reversed-lines loop returns the priority end |
| TimelineEngine.FindFallback | logs-xray-status-duration/xray_scan_timeline_traceid.py:160-168 | the reversed loop over the phase's lines returns the fallback text |
| TimelineEngine.ScanPhase | logs-xray-status-duration/xray_scan_timeline_traceid.py:86-151 | one phase's loops return that phase's window |
| TimelineEngine.ScanAllPhases | logs-xray-status-duration/xray_scan_timeline_traceid.py:86-151 | the result holds every phase, each with its window |
| TimelineEngine.FallbackAll | logs-xray-status-duration/xray_scan_timeline_traceid.py:153-168 | the debug map holds every phase, each with its fallback text |
| TimelineEngine.ParseTimeline | logs-xray-status-duration/xray_scan_timeline_traceid.py:49-170 | `parse_timeline` gives every phase its window and its fallback text |
| TimelineStatus.FallbackState | logs-xray-status-duration/xray_scan_timeline_traceid.py:194-202 | on the lowercased fallback: FAILED iff it has "fail"; WARNING iff not that and it has "warn", "skip" or "not found"; ABORTED iff none of those and it has "abort"; else INCOMPLETE |
| TimelineStatus.DetermineStatus | logs-xray-status-duration/xray_scan_timeline_traceid.py:188-214 | NOT_STARTED iff there is no start; start without end gives a fallback status, INCOMPLETE without a fallback; start and end give FAILED, NOT_SUPPORTED or ABORTED for those tags and DONE otherwise |
| TimelineStatus.OverallStatusRange | logs-xray-status-duration/xray_scan_timeline_traceid.py:312 | with no tag and no fallback the status is NOT_STARTED, INCOMPLETE or DONE, and DONE iff both times exist |
| TimelineStatus.FormatDuration | logs-xray-status-duration/xray_scan_timeline_traceid.py:172-176 | the duration is "0" iff a time is missing |
| TimelineStatus.DurationOf | logs-xray-status-duration/xray_scan_timeline_traceid.py:177-186 | the text is "MM:SS" under one hour and "HH:MM:SS" from one hour on: two-digit-or-wider fields, the minutes and seconds exactly two digits and below 60 |
| TimelineStatus.ReadDurationOf | logs-xray-status-duration/xray_scan_timeline_traceid.py:172-186 | reading the "MM:SS" or "HH:MM:SS" text back gives the elapsed whole seconds; a negative span wraps modulo one hour as Python's floor arithmetic does |
| TimelineStatus.ClockFields | logs-xray-status-duration/xray_scan_timeline_traceid.py:178-181 | the hour, minute and second fields recombine to the whole seconds |
| TimelineStatus.FormatDurationZero | logs-xray-status-duration/xray_scan_timeline_traceid.py:172-186 | equal times print "00:00" |
| TimelineStatus.TruncMillis | scan-status-timeline/xray_scan_timeline_traceid.py:187-189 | the table's millisecond field truncates toward zero: below 1000 in size, and the remainder modulo 1000 for a non-negative span |
| TimelineStatus.Mark | scan-status-timeline/xray_scan_timeline_traceid.py:177-186 | a row has no suffix iff the phase has no tag or a DONE tag; FAILED and ABORTED print their status names and SKIP prints "SKIP" |
| TimelineStatus.ShowRow | scan-status-timeline/xray_scan_timeline_traceid.py:172-209 | a row is blank iff there is no start, even when an end exists; it is pending iff there is a start without an end, showing the fallback verdict; a timed row shows the `h:MM:SS.mmm` clock of end minus start and the tag's suffix |
| TimelineStatus.PendingRowAgreesWithStatus | scan-status-timeline/xray_scan_timeline_traceid.py:197-207 | a pending row prints the status the JSON report would give from the same fallback |
| TimelineStatus.SkipPrintsSkip | scan-status-timeline/xray_scan_timeline_traceid.py:181-182 | a SKIP tag prints "SKIP" in the table while the report says NOT_SUPPORTED |
| TimelineStatus.ClockReadBack | scan-status-timeline/xray_scan_timeline_traceid.py:187-196 | reading the `h:MM:SS.mmm` text back gives the span in milliseconds |
| TimelineStatus.ClockNegative | scan-status-timeline/xray_scan_timeline_traceid.py:187-196 | an end before the start prints a negative hour field |
| TraceDiscovery.FindAllComplete | logs-xray-status-duration/xray_scan_timeline_traceid.py:27 | the tokens found are exactly the 16-hex texts between brackets at some position of the line |
| TraceDiscovery.FindAllIsTokensIn | logs-xray-status-duration/xray_scan_timeline_traceid.py:27 | the scanner's tokens are the line's bracketed tokens |
| TraceDiscovery.TokensFromLinesSpec | logs-xray-status-duration/xray_scan_timeline_traceid.py:25-28 | a token is taken from a file iff it appears on a line that contains the artifact |
| TraceDiscovery.TraceIdsSpec | logs-xray-status-duration/xray_scan_timeline_traceid.py:16-29 | a trace id is found iff some `.log` file has a line with both the artifact and the token |
| TraceDiscovery.LineTokens | logs-xray-status-duration/xray_scan_timeline_traceid.py:27-28 | the loop over one line adds exactly its tokens |
| TraceDiscovery.FindTraceIds | logs-xray-status-duration/xray_scan_timeline_traceid.py:16-29 | the list returned holds exactly the trace ids, without repeats |
| TraceDiscovery.KeptLinesAppend | logs-xray-status-duration/xray_scan_timeline_traceid.py:41-46 | keeping lines distributes over concatenation, so file order and line order are kept |
| TraceDiscovery.KeptLinesSpec | logs-xray-status-duration/xray_scan_timeline_traceid.py:31-47 | a line is collected, stripped, iff it contains `[token]` and one of the nine keywords |
| TraceDiscovery.CollectTraceLines | logs-xray-status-duration/xray_scan_timeline_traceid.py:31-47 | the loop over the files returns the kept lines of every `.log` file in order |
| TimelineReport.MinPresent | logs-xray-status-duration/xray_scan_timeline_traceid.py:257-258 | the minimum of the present values is absent iff none is present, and is one of them and below all of them |
| TimelineReport.MaxPresent | logs-xray-status-duration/xray_scan_timeline_traceid.py:259-260 | the maximum of the present values is absent iff none is present, and is one of them and above all of them |
| TimelineReport.OverallSpan | logs-xray-status-duration/xray_scan_timeline_traceid.py:245-260 | the overall start is the earliest phase start and the overall end the latest phase end, each absent iff no phase has one |
| TimelineReport.FirstHexRun | logs-xray-status-duration/xray_scan_timeline_traceid.py:219 | the position found is the first at which 64 lowercase hex characters begin |
| TimelineReport.Sha256Of | logs-xray-status-duration/xray_scan_timeline_traceid.py:218-220 | the SHA-256 is the first 64-character lowercase hex run of the identifier, and null iff there is none |
| TimelineReport.ReportShape | logs-xray-status-duration/xray_scan_timeline_traceid.py:248-324 | sca is the indexer phase's status; contextual_analysis has the ca end time; iac and services are NOT_SUPPORTED with "0"; secrets and applications mirror exposures; violations repeats overall, which is NOT_STARTED, INCOMPLETE or DONE |
| TimelineReport.GenerateJsonOutput | logs-xray-status-duration/xray_scan_timeline_traceid.py:216-326 | the loop over the phases builds the report value |
| TimelineReport.BlockJson | logs-xray-status-duration/xray_scan_timeline_traceid.py:270-324 | each block is an object of exactly three members |
| TimelineReport.BlockKeys | logs-xray-status-duration/xray_scan_timeline_traceid.py:270-324 | a block's key order is status, duration, time; or duration, time, status; or duration, status, time, according to its layout |
| TimelineReport.BlockJsonValues | logs-xray-status-duration/xray_scan_timeline_traceid.py:270-324 | whatever the layout, a block's status, duration and time are the block's own |
| TimelineReport.ReportJson | logs-xray-status-duration/xray_scan_timeline_traceid.py:221-240 | the document's keys are repositoryPath, SHA-256, traceId, overall and details, in that order |
| TimelineReport.DetailsLayout | logs-xray-status-duration/xray_scan_timeline_traceid.py:270-324 | details holds sca, contextual_analysis, exposures and violations in that order; the first three lead with status and exposures ends with categories; violations orders duration, status, time |
| TimelineReport.CategoriesLayout | logs-xray-status-duration/xray_scan_timeline_traceid.py:287-308 | the categories are iac, secrets, services and applications, each ordered duration, time, status |
| TimelineReport.Document | logs-xray-status-duration/xray_scan_timeline_traceid.py:410-414 | exactly one report prints as a bare object; any other number prints as an array of the reports in order |
| TimelineReport.Timeline | logs-xray-status-duration/xray_scan_timeline_traceid.py:49-170 | the windows of a token's lines map every phase to its rule's window |
| TimelineReport.Fallbacks | logs-xray-status-duration/xray_scan_timeline_traceid.py:153-168 | the fallbacks of a token's lines map every phase to its fallback text |
| TimelineReport.KeptLinesWellDated | logs-xray-status-duration/xray_scan_timeline_traceid.py:46 | stripping keeps a well-formed timestamp, so the collected lines can be parsed |
| TimelineReport.CollectedWellDated | logs-xray-status-duration/xray_scan_timeline_traceid.py:31-47 | a corpus of well-dated lines collects well-dated lines |
| TimelineReport.SurvivingReportsStep | logs-xray-status-duration/xray_scan_timeline_traceid.py:387-397 | one more trace id appends its report, unless it is skipped |
| TimelineReport.ReportToken | logs-xray-status-duration/xray_scan_timeline_traceid.py:388-397 | a token is skipped when no phase has a start or an end; otherwise it gives its report |
| TimelineReport.CollectReports | logs-xray-status-duration/xray_scan_timeline_traceid.py:386-397 | the loop over the ids returns the reports of the ids not skipped, in id order |
| TimelineReport.CollectReport | logs-xray-status-duration/xray_scan_timeline_traceid.py:388-397 | one turn of the loop: the reports so far are followed by the token's report exactly when the token is not skipped |
| TimelineReport.RunJson | logs-xray-status-duration/xray_scan_timeline_traceid.py:380-414 | the ids are exactly the trace ids; the run stops with exit status 1 iff there are none; otherwise it prints the document of the surviving reports |
| TimelineReport.Rows | logs-xray-status-duration/xray_scan_timeline_traceid.py:328-369 | the table has one row per phase in phase order, each row being that phase's ShowRow |
| TimelineReport.TableToken | scan-status-timeline/xray_scan_timeline_traceid.py:226-241 | a token prints its table unless no phase has a start or an end |
| TimelineReport.CollectTables | scan-status-timeline/xray_scan_timeline_traceid.py:225-241 | the loop over the ids returns each surviving id with its rows, in order |
| TimelineReport.RunTable | scan-status-timeline/xray_scan_timeline_traceid.py:220-241 | for either copy's rule table, the ids are exactly the trace ids; no ids means exit status 1; otherwise the surviving tables are printed |
| IndexRequests.TargetNames | xray-indexer-request/xray-indexer-request-trace.py:18-27 | a file name is selected iff it is "xray-server-service.log", or starts "xray-server-service-", ends ".log" and contains none of metrics, error, stack, request and traefik |
| IndexRequests.TargetNamesAppend | xray-indexer-request/xray-indexer-request-trace.py:18-27 | selection distributes over concatenation, so it keeps the walk's order |
| IndexRequests.SelectTargetFiles | xray-indexer-request/xray-indexer-request-trace.py:18-27 | the selection loop returns the selected names |
| IndexRequests.ClassifyPriority | xray-indexer-request/xray-indexer-request-trace.py:36-46 | forceReindex wins over release-bundle, which wins over build, which wins over any "Got indexing message:" (created); every request line is classified as something other than other |
| IndexRequests.RequestLineClassified | xray-indexer-request/xray-indexer-request-trace.py:32-46 | a line kept as a request never classifies as other |
| IndexRequests.RequestsSpec | xray-indexer-request/xray-indexer-request-trace.py:29-34 | a stripped line is a request iff some selected file has a line with one of the three indexing phrases or "forceReindex" followed by "Scan status record updated for" |
| IndexRequests.RequestsInSpec | xray-indexer-request/xray-indexer-request-trace.py:29-34 | a stripped line is a request of one file iff one of that file's lines is a request line |
| IndexRequests.RequestsClassified | xray-indexer-request/xray-indexer-request-trace.py:32-46 | every collected request classifies as one of the four request kinds |
| IndexRequests.FindIndexRequests | xray-indexer-request/xray-indexer-request-trace.py:7-34 | the list returned holds exactly the requests, each once (the set) |
| IndexRequests.Micros | xray-indexer-request/xray-indexer-request-trace.py:49-55 | the `%f` field right-padded to six digits is below one second; its milliseconds are those the timeline parser reads and its last three digits are the fourth to sixth fraction digits |
| IndexRequests.ExtractTimestamp | xray-indexer-request/xray-indexer-request-trace.py:48-56 | the result is a valid date-time; `datetime.min` whenever the prefix is missing or does not parse, including more than six fraction digits; otherwise the line's date and time fields with the fraction read as microseconds |
| IndexRequests.ExtractTimestampAgrees | xray-indexer-request/xray-indexer-request-trace.py:48-56 | where this stamp parses, the timeline parser reads the same fields, and its microsecond truncates this one to milliseconds |
| IndexRequests.StampKey | xray-indexer-request/xray-indexer-request-trace.py:85 | the sort key is non-negative and 0 exactly for `datetime.min` |
| IndexRequests.NewestFirstSpec | xray-indexer-request/xray-indexer-request-trace.py:85 | the sorted lines are a permutation, newest first, with untimestamped lines last; lines with equal stamps keep their order (stable) |
| IndexRequests.NewestFirstOrder | xray-indexer-request/xray-indexer-request-trace.py:85 | a descending sequence under the timestamp key is newest first with `datetime.min` lines last |
| IndexRequests.Tally | xray-indexer-request/xray-indexer-request-trace.py:72-79 | each line is classified in order, and each counter is the number of lines of its kind |
| IndexRequests.CountsPartition | xray-indexer-request/xray-indexer-request-trace.py:72-79 | the four counters and the other lines add up to the number of lines |
| IndexRequests.CountKindSorted | xray-indexer-request/xray-indexer-request-trace.py:85 | sorting does not change any kind's count |
| IndexRequests.LinesOfKind | xray-indexer-request/xray-indexer-request-trace.py:88-90 | a group has as many lines as its kind's count, all of that kind |
| IndexRequests.GroupLines | xray-indexer-request/xray-indexer-request-trace.py:88-90 | there is a group exactly for each kind present, holding its lines in sorted order |
| IndexRequests.TraceIndexRequests | xray-indexer-request/xray-indexer-request-trace.py:70-99 | the requests are exactly the matching lines; each of the four counters is the number of requests of its kind, and the total is the EVENT count plus forceReindex; a group exists exactly for each kind that occurs (never "other") and holds that kind's lines newest first |
| IndexRequests.NoOtherKind | xray-indexer-request/xray-indexer-request-trace.py:72-79 | no collected request counts as other |
| RepoIndex.FilterFilesByPackageType | artifactory-repo-index/indexer.py:109-133 | an unknown package type returns the list unchanged; a known type keeps only files of the list that its rule accepts |
| RepoIndex.FilterSpec | artifactory-repo-index/indexer.py:113-133 | for a known type, a file is kept iff it is in the list and its rule accepts it, and filtering distributes over concatenation (order kept) |
| RepoIndex.GradleNarrowsMaven | artifactory-repo-index/indexer.py:121-122 | gradle keeps a uri iff maven keeps it and it does not end ".module" |
| RepoIndex.DockerManifests | artifactory-repo-index/indexer.py:119 | docker never keeps a "list.manifest.json" or a uri under "/.jfrog/repository.catalog" |
| RepoIndex.ExtensionsMap | artifactory-repo-index/indexer.py:140-143 | the map holds exactly the extensions of every supported package type rule |
| RepoIndex.AnnotateSupport | artifactory-repo-index/indexer.py:136-146 | every file of the array gets `support` = its uri ends with a configured extension, and nothing else of it changes |
| RepoIndex.EffectiveRepo | artifactory-repo-index/indexer.py:154 | the Xray repository name is repo + "-cache" iff the class is "remote", and repo otherwise |
| RepoIndex.StatusOf | artifactory-repo-index/indexer.py:163-180 | a 401 ends the run; a network error, an HTTP error or an unparsable body gives "ERROR"; otherwise the body's "status" member, or "N/A" without one |
| RepoIndex.GetScanStatus | artifactory-repo-index/indexer.py:149-182 | every path of the retry loop's body returns, so one request is made and its reply's status is the answer; with no attempt allowed the status is "ERROR" |
| RepoIndex.ForceReindex | artifactory-repo-index/indexer.py:185-212 | a 401 ends the run; the call succeeds iff a reply came back without an HTTP error |
| RepoIndex.StatusMap | artifactory-repo-index/indexer.py:225-237 | the map has a key for exactly the uris answered, each mapped to its last answer |
| RepoIndex.MergeStatuses | artifactory-repo-index/indexer.py:240-247 | the result is the same files in the same order, each with its merged status and nothing else changed |
| RepoIndex.MergedStatusSpec | artifactory-repo-index/indexer.py:242-245 | a supported file gets its mapped status or "N/A"; any other file gets "not scanned" |
| Base64.Encode | license-decomposer/src/history_manager.py:28 | the encoding is 4 characters per started group of 3 bytes |
| Base64.DecodeRejectsLength | license-decomposer/src/history_manager.py:204 | text whose length is not a multiple of 4 does not decode |
| Base64.DecodeEncode | license-decomposer/src/history_manager.py:201-207 | decoding the encoding gives back the bytes |
| History.NewRecord | license-decomposer/src/history_manager.py:85-91 | a created record's stored password decodes to the password |
| History.MatchIndex | license-decomposer/src/history_manager.py:45-52 | the index found is the first record with the file name and the encoded password; none iff no record has both |
| History.IdIndex | license-decomposer/src/history_manager.py:57-61 | the index found is the first record with the id; none iff no record has it |
| History.IdIndexIs | license-decomposer/src/history_manager.py:57-61 | a record with the id that no earlier record has is the one the id lookup finds |
| History.FindExisting | license-decomposer/src/history_manager.py:45-52 | a record is found iff some record has the file name and the encoded password, and it is such a record |
| History.Touch | license-decomposer/src/history_manager.py:54-63 | the update keeps the number of records |
| History.TouchOnlyFirst | license-decomposer/src/history_manager.py:54-63 | the update changes at most the first record with the id, sets its timestamp and count, and never changes an id, a file name or a password |
| History.StoredNameRenames | license-decomposer/src/history_manager.py:72-79 | a clashing file is stored under a different name that keeps its root and extension |
| History.SavedExisting | license-decomposer/src/history_manager.py:24-36 | as written, an existing file and password pair answers "updated" and adds no record |
| History.SavedNew | license-decomposer/src/history_manager.py:37-39 | under the corrected save, a new pair appends one record at the end, with the count and a password that decodes back, and answers "created" |
| History.SavedTouchesIdTwin | license-decomposer/src/history_manager.py:33-35 | as written, when an earlier record shares the matched record's id, the earlier one is refreshed and the matched one is left stale |
| History.SavedFixedTouchesMatch | license-decomposer/src/history_manager.py:54-63 | the corrected update refreshes exactly the first matching record's timestamp and count, and leaves every other record alone |
| History.SavedAgreesOnDistinctIds | license-decomposer/src/history_manager.py:33-35 | while ids are distinct, the code as written and the corrected update agree |
| History.WithoutId | license-decomposer/src/history_manager.py:188 | the remaining records are exactly those with another id |
| History.WithoutIdAppend | license-decomposer/src/history_manager.py:188 | removal distributes over concatenation, so the kept records stay in order |
| History.WithoutAbsentId | license-decomposer/src/history_manager.py:179-180 | removing an id that no record has changes nothing |
| History.NewestFirstSpec | license-decomposer/src/history_manager.py:138-146 | the sorted history is a permutation in non-increasing timestamp-string order, with equal timestamps in stored order |
| History.DecodePassword | license-decomposer/src/history_manager.py:201-207 | a stored password whose length is not a multiple of 4 gives None |
| History.DecodeSavedPassword | license-decomposer/src/history_manager.py:201-207 | the password of a created record decodes to the original |
| History.HistoryManager.constructor | license-decomposer/src/history_manager.py:111-114 | a missing history file loads as an empty table |
| History.HistoryManager.UpdateExistingRecord | license-decomposer/src/history_manager.py:54-63 | the table becomes the first-id-match update of the old table |
| History.HistoryManager.AppendToHistory | license-decomposer/src/history_manager.py:132-136 | exactly one record is added, at the end |
| History.HistoryManager.CreateNewRecord | license-decomposer/src/history_manager.py:65-98 | after a copy, the new record is appended and "created" returned; a failed copy answers "failed" and changes nothing |
| History.HistoryManager.SaveSuccessRecord | license-decomposer/src/history_manager.py:24-43 | the table and the answer are those of the corrected save: a match refreshes that record, a new pair is stored and appended, a failed copy changes nothing |
| History.HistoryManager.ClearHistory | license-decomposer/src/history_manager.py:148-161 | the table is empty afterwards |
| History.HistoryManager.DeleteRecord | license-decomposer/src/history_manager.py:167-191 | True iff some record had the id; every record with the id is removed and the rest kept in order; a missing id changes nothing |
| License.Chain | license-decomposer/src/license_decomposer.py:24-32 | n chained MD5 blocks are 16n bytes |
| License.DeriveKeyIv | license-decomposer/src/license_decomposer.py:21-33 | the loop yields a 32-byte key and a 16-byte IV that together are the first three chained blocks |
| License.KeyIvBlocks | license-decomposer/src/license_decomposer.py:24-32 | block 1 is MD5(password ‖ salt), and each later block is MD5(previous ‖ password ‖ salt) |
| License.SplitSalted | license-decomposer/src/license_decomposer.py:39-42 | the header splits iff the data starts "Salted__"; salt is bytes 8 to 16 and the ciphertext the rest |
| License.Unpad | license-decomposer/src/license_decomposer.py:66-68 | an empty plaintext fails (indexing it raises); otherwise the result is a prefix of the plaintext |
| License.UnpadPadded | license-decomposer/src/license_decomposer.py:66-68 | correctly padded data unpads to the data |
| License.UnpadUnchecked | license-decomposer/src/license_decomposer.py:66-68 | the pad bytes before the last are not checked: any p-1 bytes followed by p are removed |
| License.UnpadKeeps | license-decomposer/src/license_decomposer.py:66-68 | a last byte of 0 or above 16 keeps the data unchanged |
| License.Latin1 | license-decomposer/src/license_decomposer.py:75-77 | the Latin-1 text has one character per byte, of the same code |
| License.KeyIvFor | license-decomposer/src/license_decomposer.py:39-58 | the key is 32 bytes and the IV 16, for salted and unsalted data alike |
| License.DecryptSalted | license-decomposer/src/license_decomposer.py:39-45 | salted data decrypts the bytes after the header under the chained key and IV for its salt |
| License.DecryptFails | license-decomposer/src/license_decomposer.py:60-84 | decryption fails iff the cipher fails or gives an empty plaintext |
| License.Extracted | license-decomposer/src/license_decomposer.py:86-101 | data whose licenses cannot be iterated gives an error |
| License.ExtractedCases | license-decomposer/src/license_decomposer.py:93-98 | an object without "licenses" gives no keys; an array of licenses gives the keys of its items |
| License.ExtractLicenseKeys | license-decomposer/src/license_decomposer.py:86-101 | the loop returns the extracted keys or the error |
| License.KeysOfSpec | license-decomposer/src/license_decomposer.py:94-96 | a key is extracted iff some item is an object with a "key"; extraction distributes over concatenation, so array order is kept |
| License.KeyOfKeyed | license-decomposer/src/license_decomposer.py:95-96 | an extracted key is the item's "key" member |
| License.CleanKeyKeeps | license-decomposer/src/license_decomposer.py:108-109 | a key with neither the literal `\r\n` nor a CR LF is unchanged |
| License.CleanKeyChanges | license-decomposer/src/license_decomposer.py:108-109 | a key with a CR LF and no literal `\r\n` is changed |
| License.Cleaned | license-decomposer/src/license_decomposer.py:103-111 | cleaning fails iff some key is not a string; otherwise it keeps length and order and cleans each key |
| License.CleanLicenseKeys | license-decomposer/src/license_decomposer.py:103-111 | the loop returns the cleaned keys |
| License.ProcessFile | license-decomposer/src/license_decomposer.py:113-139 | processing is decrypt, then parse, then extract, then clean, and the first failure is the result |
| Sha1Validator.AllInHexDigits | binary-sha1-validator/validator.py:61 | true iff every character is in 0-9a-fA-F |
| Sha1Validator.IsSha1Filename | binary-sha1-validator/validator.py:59-61 | a SHA-1 name has exactly 40 characters, all from 0-9a-fA-F |
| Sha1Validator.Sha1Of | binary-sha1-validator/validator.py:47-57 | the digest is empty iff the file cannot be read |
| Sha1Validator.CalculateSha1 | binary-sha1-validator/validator.py:47-57 | the method returns that digest |
| Sha1Validator.Validation | binary-sha1-validator/validator.py:63-80 | a match needs a SHA-1 name, readable content and equal lowercased digest and name |
| Sha1Validator.NameCheckedFirst | binary-sha1-validator/validator.py:67-68 | a non-SHA-1 name is rejected whatever the content and the hash |
| Sha1Validator.ValidationCases | binary-sha1-validator/validator.py:70-77 | for a SHA-1 name: unreadable content is rejected, and readable content matches iff the lowercased digest equals the lowercased name |
| Sha1Validator.ValidationIgnoresCase | binary-sha1-validator/validator.py:74 | a name and its lowercase form match the same content |
| Sha1Validator.ValidateFile | binary-sha1-validator/validator.py:63-80 | the answer is valid iff the verdict is a match |
| Sha1Validator.FindArtifactFiles | binary-sha1-validator/validator.py:82-101 | the walk returns the found files |
| Sha1Validator.Consider | binary-sha1-validator/validator.py:86-95 | one entry of the walk is appended iff it is an artifact inside the window; a bound that does not parse stops the walk at the first artifact |
| Sha1Validator.FoundSpec | binary-sha1-validator/validator.py:86-99 | without both bounds, exactly the SHA-1-named files are found; with both, those whose mtime lies inclusively between them; an unparsable bound finds nothing |
| Sha1Validator.TallyBalanced | binary-sha1-validator/validator.py:113-129 | total is valid plus invalid; each invalid adds one error file; total plus errors is the number of outcomes |
| Sha1Validator.Validator.constructor | binary-sha1-validator/validator.py:36-45 | all counters start at zero with no error files |
| Sha1Validator.Validator.RecordOutcomes | binary-sha1-validator/validator.py:103-129 | every counter and the error list grow by the tally of the outcomes |
| Sha1Validator.ExitStatus | binary-sha1-validator/validator.py:217-240 | the exit status is 0 or 1 |
| Sha1Validator.ExitStatusSpec | binary-sha1-validator/validator.py:237-240 | with files found, the run exits 0 iff every validation completed and was valid |
| ChunkStorage.LeadingDigits | chunk-based-storage/chunk-based-storage.py:15 | the number is the longest all-digit prefix |
| ChunkStorage.Multiplier | chunk-based-storage/chunk-based-storage.py:19-25 | the unit multiplier is at least 1 |
| ChunkStorage.ParseNormal | chunk-based-storage/chunk-based-storage.py:15-29 | an accepted size is at least 1 byte |
| ChunkStorage.ParseChunkSize | chunk-based-storage/chunk-based-storage.py:13-29 | an accepted size is at least 1 byte |
| ChunkStorage.ParseChunkSizeOf | chunk-based-storage/chunk-based-storage.py:13-29 | digits d, a unit and any tail (so "1.5MB" reads as 1) give d times 1, 1, 1024, 1024² or 1024³, or the below-one-byte error when d is 0 |
| ChunkStorage.ParseNormalOf | chunk-based-storage/chunk-based-storage.py:15-28 | on trimmed upper-case text, the same value or error |
| ChunkStorage.Chunks | chunk-based-storage/chunk-based-storage.py:64 | every chunk is non-empty and at most the chunk size |
| ChunkStorage.ChunksSpec | chunk-based-storage/chunk-based-storage.py:61-67 | the chunks concatenate to the data; all but the last are full; an empty file has none; the count is the data length divided by the size, rounded up |
| ChunkStorage.HashAll | chunk-based-storage/chunk-based-storage.py:65-66 | there is one digest per chunk, in order |
| ChunkStorage.SplitAndHash | chunk-based-storage/chunk-based-storage.py:61-67 | the read loop returns the digests of the chunks |
| ChunkStorage.ChunksStep | chunk-based-storage/chunk-based-storage.py:64 | a read of the smaller of `size` and what is left takes off exactly the first chunk |
| ChunkStorage.DistinctCount | chunk-based-storage/chunk-based-storage.py:81 | the distinct digests are at most as many as the digests, and as many iff none repeats |
| ChunkStorage.NoRepeatsFresh | chunk-based-storage/chunk-based-storage.py:81 | appending a digest not seen before keeps a digest list free of repeats, and only then |
| ChunkStorage.SummaryBounds | chunk-based-storage/chunk-based-storage.py:80-83 | duplicates are never negative and fewer than the total when there are chunks; duplicates are 0 iff no digest repeats; the ratio is in [0, 100) |
| ChunkStorage.RatioBelowHundred | chunk-based-storage/chunk-based-storage.py:83 | a share of fewer duplicates than chunks, in percent, lies in [0, 100) |
| ChunkStorage.Scan | chunk-based-storage/chunk-based-storage.py:46-83 | no files means the error exit; otherwise one chunk count per file in order, and the summary of all digests |
| RemoteCache.Fields | cache-in-jfrog-remote/check_on_remote_cache.py:159 | the fields are the comma pieces, each trimmed |
| RemoteCache.ParseLine | cache-in-jfrog-remote/check_on_remote_cache.py:155-171 | blank and comment lines give nothing; a task has type model or dataset and trimmed fields |
| RemoteCache.ParseThreeFields | cache-in-jfrog-remote/check_on_remote_cache.py:160-165 | three fields give (type, id, revision), with an unknown type read as "model" |
| RemoteCache.ParseTwoFields | cache-in-jfrog-remote/check_on_remote_cache.py:166-169 | two fields give ("model", id, revision) |
| RemoteCache.SplitThree | cache-in-jfrog-remote/check_on_remote_cache.py:159 | three comma-free fields joined by commas split back into those fields |
| RemoteCache.FieldsThree | cache-in-jfrog-remote/check_on_remote_cache.py:159 | the stripped fields of a line that splits into three pieces are the stripped pieces |
| RemoteCache.ParseThree | cache-in-jfrog-remote/check_on_remote_cache.py:155-165 | a stripped non-comment line with three fields reads as a task of them, an unknown type read as "model" |
| RemoteCache.ParseWrongCount | cache-in-jfrog-remote/check_on_remote_cache.py:170-171 | any other field count is dropped |
| RemoteCache.TasksMember | cache-in-jfrog-remote/check_on_remote_cache.py:153-172 | a task is listed iff some line parses to it |
| RemoteCache.TasksAppend | cache-in-jfrog-remote/check_on_remote_cache.py:155-169 | parsing distributes over concatenation, so tasks keep file order |
| RemoteCache.ParseChecklistFile | cache-in-jfrog-remote/check_on_remote_cache.py:152-172 | the loop returns the tasks of the lines |
| RemoteCache.CacheStatus | cache-in-jfrog-remote/check_on_remote_cache.py:59-70 | CACHED iff HEAD gives 200; NOT CACHED iff 404 or a timeout; anything else is "ERROR ..." |
| RemoteCache.PadRight | cache-in-jfrog-remote/check_on_remote_cache.py:77 | `:<40` pads on the right with spaces to the width and never truncates |
| RemoteCache.PadLeft | cache-in-jfrog-remote/check_on_remote_cache.py:77 | `:>10` pads on the left with spaces to the width and never truncates |
| RemoteCache.BucketCached | cache-in-jfrog-remote/check_on_remote_cache.py:42-43 | a green CACHED line counts as cached |
| RemoteCache.BucketNotCached | cache-in-jfrog-remote/check_on_remote_cache.py:44-45 | a magenta NOT CACHED line counts as not cached, since it does not carry the green CACHED marker |
| RemoteCache.BucketError | cache-in-jfrog-remote/check_on_remote_cache.py:46-47 | a red ERROR line counts as an error |
| RemoteCache.BucketOfOutput | cache-in-jfrog-remote/check_on_remote_cache.py:71-77 | a file's colored output line is counted in the bucket of its status |
| RemoteCache.CountModelLines | cache-in-jfrog-remote/check_on_remote_cache.py:39-47 | the loop's counters are the numbers of lines in each bucket |
| RemoteCache.CountsBounded | cache-in-jfrog-remote/check_on_remote_cache.py:42-47 | every line lands in exactly one bucket (CACHED, NOT CACHED, ERROR, or none), so the counts add up to the number of lines |
| RemoteCache.CountsOfOutputs | cache-in-jfrog-remote/check_on_remote_cache.py:36-78 | counting the output lines gives the number of probes with each status |
| BundleLogs.OutputDirectory | bundle2logs/bundle2logs.py:180-187 | "jfxr" gives ./xray, "jfrt" gives ./artifactory, anything else ./unknown |
| BundleLogs.NodeOf | bundle2logs/bundle2logs.py:18-40 | "unknown" without a manifest, without `microservices` or when it is not an object; otherwise the first candidate node, in manifest order, that occurs in the zip's basename, or "unknown" when none does |
| BundleLogs.FindNode | bundle2logs/bundle2logs.py:28-33 | a found node is a substring of the file name |
| BundleLogs.FindNodeFirstCandidate | bundle2logs/bundle2logs.py:28-33 | the search returns the first node, in manifest order over the named services, that the file name contains |
| BundleLogs.FirstInAppend | bundle2logs/bundle2logs.py:28-33 | the search over two lists of nodes takes the first list's hit before looking at the second |
| BundleLogs.FirstInSpec | bundle2logs/bundle2logs.py:30-33 | none is found iff no node is contained; otherwise the found node is contained and no earlier one is |
| BundleLogs.ModeOf | bundle2logs/bundle2logs.py:57-60 | permission bits (attr >> 16) & 0o777 are applied iff they are nonzero |
| BundleLogs.ModeRoundTrip | bundle2logs/bundle2logs.py:57-60 | a nonzero mode stored in the upper half is read back |
| BundleLogs.AttributesOf | bundle2logs/bundle2logs.py:81-95 | the mtime is set iff the stamp passes the range test (month 1-12, day 1-31, hour 0-23, minute and second 0-59); an in-range stamp that is no real date raises; the mode is ModeOf of the attributes |
| BundleLogs.PreservedAttributes | bundle2logs/bundle2logs.py:42-63 | an mtime is set only for an in-range stamp, and the mode is the nonzero permission bits |
| BundleLogs.EntryPath | bundle2logs/bundle2logs.py:136-148 | a ".log.gz" entry is written to a ".log" path |
| BundleLogs.GzBasename | bundle2logs/bundle2logs.py:136-143 | the basename of a ".log.gz" entry still ends in ".log.gz" and does not start with "/" |
| BundleLogs.GzEntryPathCut | bundle2logs/bundle2logs.py:139-147 | a ".log.gz" entry is written to the joined node path less its last three characters |
| BundleLogs.JoinCutTail | bundle2logs/bundle2logs.py:139-147 | for a relative name, cutting three characters off the joined path equals joining the name less those characters, so a ".log.gz" entry lands in the node directory under its basename without ".gz" |
| BundleLogs.JoinKeepsSuffix | bundle2logs/bundle2logs.py:139 | a joined path ends as its relative part does |
| BundleLogs.CutGz | bundle2logs/bundle2logs.py:147 | cutting ".gz" off a name ending in ".log.gz" leaves one ending in ".log" |
| BundleLogs.Content | bundle2logs/bundle2logs.py:142-155 | a compressed log holds its decompressed text; any other log its own bytes |
| BundleLogs.GzContentAsWritten | bundle2logs/bundle2logs.py:158 | as written, the final copy leaves the gzip bytes in place of the decompressed text |
| BundleLogs.Emit | bundle2logs/bundle2logs.py:136-160 | a written file is at the entry's path in its node's directory, and it is counted iff writing it did not raise |
| BundleLogs.ExtractInnerZip | bundle2logs/bundle2logs.py:127-163 | the loop over an inner zip's entries updates the seen names, the files and the count as the entry-by-entry function does |
| BundleLogs.ExtractLogsFromZip | bundle2logs/bundle2logs.py:101-167 | an unreadable bundle gives 0; otherwise the count and the files are those of the inner zips in order |
| BundleLogs.StepSound | bundle2logs/bundle2logs.py:128-160 | one entry keeps the bookkeeping sound and only adds to it |
| BundleLogs.EntriesSound | bundle2logs/bundle2logs.py:127-160 | one inner zip keeps the bookkeeping sound |
| BundleLogs.AppendSound | bundle2logs/bundle2logs.py:128-160 | marking a new entry seen and appending at most one sound file from it keeps the extraction state sound |
| BundleLogs.AppendFilesSound | bundle2logs/bundle2logs.py:128-160 | every file stays a log of a known node at its entry path from a seen entry when one such file is appended |
| BundleLogs.AppendSourcesDistinct | bundle2logs/bundle2logs.py:128-160 | no entry is written twice when the appended file comes from an entry not seen before |
| BundleLogs.MembersSound | bundle2logs/bundle2logs.py:113-163 | the whole bundle keeps the bookkeeping sound |
| BundleLogs.ExtractionSound | bundle2logs/bundle2logs.py:109-163 | every written file is a log entry of a known node at its entry path; no inner path is written twice; the count is the files written without error |
| BundleLogs.UnknownNodeSkipped | bundle2logs/bundle2logs.py:114-118 | an inner zip of an unknown node contributes nothing |
| BundleLogs.NoManifestNothing | bundle2logs/bundle2logs.py:21-22 | without a manifest nothing is written |
| PrefixGenerator.ValidLoweredPrefix | sha1-prefix-generator/generate_file.py:14-17 | the lowered prefix is valid iff the prefix is two hex characters in either case |
| PrefixGenerator.Candidate | sha1-prefix-generator/generate_file.py:19-24 | a candidate starts with the prefix's two bytes and has at least one suffix byte |
| PrefixGenerator.CandidatesDistinct | sha1-prefix-generator/generate_file.py:24 | distinct suffixes give distinct candidates |
| PrefixGenerator.GenerateFileWithChecksum | sha1-prefix-generator/generate_file.py:7-34 | an invalid lowered prefix is rejected; otherwise the file "file_with_<prefix>.txt" holds the candidate of the smallest suffix whose SHA-1 starts with the prefix, and the digest returned is that SHA-1 |

## Left out

- File system I/O is not modelled: directory walks, `open`, zip and gzip reading, `os.utime`, `chmod`, `shutil` copies, the `history.json` file and the `debug_<token>.log` dump. Lines, names, entries and records are inputs instead.
- HTTP is not modelled (`requests` sessions, HEAD calls, timeouts and retries on the wire). Replies are values: `RepoIndex.Reply`, `RemoteCache.Probe`.
- Concurrency is not modelled (`ThreadPoolExecutor`/`as_completed`, and the processes and queues of the remote cache check). Results are processed in the order given.
- Hash and cipher primitives (MD5, SHA-1, AES-256-CBC, PBKDF2-HMAC, gunzip) are function parameters with fixed output lengths, not implementations.
- JSON parsing and printing (`json.loads`, `json.dumps` indentation), `argparse`, `tabulate`, `pandas`, `wcswidth`, and all `print` and log output are not modelled. The JSON document is a value whose member order is the printed order.
- The table's row text is not modelled: the phase column and the printed start and end times. The model gives each row's kind and its status or clock text.
- TimelineEngine.Suspicious: lowercasing is ASCII only. Python's `str.lower()` is Unicode-aware, so a line with `SKIP` (KELVIN SIGN) counts as "skip" in the source but not in the model.
- TimelineStatus.FallbackState: lowercasing is ASCII only, for the same reason.
- IndexRequests.ExtractTimestamp: the source's `\d`, `%Y` and `int()` accept any Unicode decimal digit. The model reads ASCII digits only, so a stamp such as "２０２４-01-02T03:04:05.123Z" parses in the source but gives the `datetime.min` fallback (MinDateTime) here, and it sorts last in NewestFirst.
- LogTime.ExtractTime: `\d` accepts ASCII digits only. Python's regex, `strptime` and `int` also accept other Unicode decimal digits.
- LogTime.ExtractTime: the model requires a valid calendar (no month 13, no February 30) on the leading timestamp of every line of every file: `WellDated` is required by ScanForward, ScanBackward, ScanPriority, ScanPhase, ScanAllPhases and ParseTimeline, and `CorpusWellDated` (timeline_report.dfy) by RunJson and RunTable. This is wider than what the source parses. `extract_time` runs only on lines that hit a phrase, and only until that phase's loop stops (logs-xray-status-duration/xray_scan_timeline_traceid.py:91-101 and :137-148), plus the kept lines under `--debug` (:403). A bad calendar on any other line is harmless there, but it falls outside the model. Where `strptime` does raise, the source does not catch it.
- TimelineReport.BlockJson: the "time" field is the end instant as integer milliseconds (`JNum`). The source renders `isoformat() + "Z"`, which has no fraction when the microsecond is 0 and six fraction digits otherwise.
- TimelineStatus.FormatDuration: the source uses the float `total_seconds()`. The model uses integer milliseconds with floor division, which agrees except where float rounding moves a field.
- TimelineStatus.TruncMillis: the table's `int((total - int(total)) * 1000)` is computed exactly, so the float rounding that can put it off by one is not modelled.
- The `ca_end` debug block of `parse_timeline` and the `--debug` printing and sorted debug file are not modelled; they only print.
- History.DecodePassword: passwords are byte strings. `password.encode()` and the UTF-8 `.decode()` of the decoded password are not modelled, so a stored password whose bytes are not valid UTF-8 gives `Some` here where the source gives None.
- History.NewRecord: the password is stored as the base64 of its bytes; the text-to-UTF-8 encoding step is not modelled.
- Base64.Decode: decoding is strict (canonical alphabet, padding, length a multiple of 4). Python's `b64decode` drops characters outside the alphabet, so "QQ==\n" decodes to `b'A'` in the source and to None here.
- History.HistoryManager.ClearHistory: it always answers True. The source answers False when removing a stored file or saving the history raises.
- History.HistoryManager.DeleteRecord: a matched delete always answers True. The source answers False when removing the stored file or saving raises.
- History.HistoryManager.CreateNewRecord: whether the copy succeeds and whether the name clashes with a different stored file (the MD5 content comparison) are inputs, and so are the clock values (`id`, `stamp`, `now`).
- The history's `load_history` fallback for an unreadable file and `get_record_filepath` are not modelled; both are file-system concerns.
- License.Latin1: UTF-8 decoding is the `utf8` primitive of `Primitives`. When it fails, `Decrypt` decodes the text as Latin-1, a concrete function. Latin-1 maps every byte to a character and never fails, so the cp1252, ISO-8859-1 and UTF-8-with-replacement steps after it in the source can never be reached, and the model leaves them out.
- License.KeyIvFor: unsalted data goes through PBKDF2-HMAC-MD5 with an 8-byte zero salt and one iteration, which is a parameter here.
- License.ProcessFile: the interactive password prompt (`getpass`) and the `run` output are not modelled.
- RepoIndex.StatusOf: a reply body that parses as JSON but is not an object reads as "N/A" here. In the source, `.get` raises on it, outside any handler.
- RepoIndex.GetScanStatus: the URL, headers and timeout of the request are not modelled; `RepoIndex.ScanRequestFor` gives the posted body.
- `get_repository_info`, `get_file_list`, `setup_logger`, `save_results` and `main` of `indexer.py` are not modelled; they are HTTP, logging and spreadsheet output.
- `get_bundle_type` and `main` of `bundle2logs.py` are not modelled; they read the manifest file and walk the bundles. BundleLogs.OutputDirectory takes the bundle type as a JSON value.
- RemoteCache.CacheStatus: the URL built from the repository type, id, revision and `rfilename` is not modelled; the probe result is the input.
- ChunkStorage.ParseChunkSize: `(\d+)` and `int()` in the source accept any Unicode decimal digit. The model reads ASCII digits only, so "６４KB" (fullwidth digits) is 65536 in the source (chunk-based-storage/chunk-based-storage.py:15-26) but `Err(InvalidFormat)` here.
- ChunkStorage.Scan: the dedup ratio is an exact real. The source's `round(..., 2)` and float division are not modelled, and neither are the MB/GB figures and the pandas table.
- Sha1Validator.FindArtifactFiles: `strptime` of the bounds and `fromtimestamp` of the mtime are a `parse` parameter and integer times. An unparsable bound is modelled as finding nothing, which is what the source's catch-all around the walk yields.
- Sha1Validator.Validator.RecordOutcomes: exceptions escaping a validation are an `Outcome` value. `generate_report`'s text is not modelled.
- PrefixGenerator.GenerateFileWithChecksum: the unbounded search is given a fuel bound. With `NotFound` the model states only that no suffix below the bound hits, since termination of the source's loop depends on SHA-1.
- The network-only scripts are not part of this model: `scan-results-report/report.py`, `xray-scan-reporter/report.py`, the `dockerImageClean` and `dockerImageList` scripts, and `repo-jas-configuration`.
- The Qt GUI of the license decomposer is not part of this model (`gui_app_pyqt.py`, `history_widgets.py`, `icon_manager.py`, `main.py`); its logic is widget visibility and float progress. Neither are `build.py` and `generate_test_files.py`, which only package and write random test files.

## Findings

| source | as written | input that shows it | evidently intended | confidence | as-written member | corrected member |
|---|---|---|---|---|---|---|
| license-decomposer/src/history_manager.py:33-63 | `save_success_record` finds the record matching the file name and password, then refreshes the FIRST record carrying that record's `id`. Ids are `strftime('%Y%m%d_%H%M%S')`, so two records created in the same second share one | two records with the same id; only the second matches the file name and password; the first record's timestamp gets refreshed and the matching record stays stale | refresh the record that matched | medium, not executed | History.SavedTouchesIdTwin | History.SavedFixedTouchesMatch |
| bundle2logs/bundle2logs.py:142-158 | a `.log.gz` entry is first written decompressed to the path without ".gz". Then `create_file_with_timestamp` is called with the inner zip and the entry name, and it copies the raw gzip bytes over that same path | any `.log.gz` entry whose decompressed text differs from its compressed bytes (every non-trivial gzip member) | the extracted `.log` file holds the decompressed text | high, not executed | BundleLogs.GzContentAsWritten | BundleLogs.Content |

`History.HistoryManager.SaveSuccessRecord` follows the corrected History.SavedFixed, and History.SavedAgreesOnDistinctIds proves that it behaves as the code as written (History.Saved) whenever ids are distinct. BundleLogs.Emit and the whole extraction use the corrected BundleLogs.Content.
