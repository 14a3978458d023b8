# web_bounty_flow — a verified model of the recon pipeline's logic

web_bounty_flow is a bug-bounty reconnaissance pipeline. A Go orchestrator
(`pkg/app`) runs eight stages in a fixed order. It shells out to scanners,
filters scope lists, parses FFUF and nmap output, and mines robots.txt files.
A small HTTP front end (`pkg/server`) starts runs, keeps a bounded log
transcript and a per-step status table, and maintains the scope lists.
Python helpers do the following:
- probe targets for SSI/ESI injection, request smuggling, Cloudflare bypass and hop-by-hop header handling;
- run GitHub code searches over rotating API tokens;
- sort probed subdomains and ping results into one file per HTTP status.

This project models the deterministic core of each of these programs in
Dafny. It proves what the code promises about it:
- what is read from the scope lists, and what is filtered out;
- the CSV and robots.txt extraction rules and their round trips;
- the fail-fast stage order;
- the bounded log ring and the step table;
- the append-if-absent rule of the list endpoint;
- the configuration readers and the probe verdicts;
- the token rotation and the bounded retry of the GitHub search;
- the grouping of results by status code.

Modules, one per source file, plus shared helpers:

| module | file | models |
|---|---|---|
| `Text` | text.dfy | the string primitives both languages use: trimming, prefixes, splitting, line reading, ordering, integer rendering |
| `App` | app.dfy | pkg/app/app.go |
| `Server` | server.dfy | pkg/server/server.go (the `FlowServer` class) |
| `Probe` | probe.dfy | the scheme defaulting shared by the Python probes |
| `ConfFile` | conf_file.dfy | `read_conf` of utils/request_smuggling.py and utils/cloudflare.py |
| `SsiEsi` | ssi_esi.dfy | ssi_esi.py |
| `RequestSmuggling` | request_smuggling.dfy | utils/request_smuggling.py |
| `Cloudflare` | cloudflare.dfy | utils/cloudflare.py |
| `HopByHop` | hop_by_hop.dfy | utils/hop_by_hop_checker.py |
| `GithubSearch` | github_search.dfy | dorking/github/_github_search.py |
| `PingDistribute` | ping_distribute.dfy | fuzzing/ffuf/ping_distribute.py |
| `SortSubdomains` | sort_subdomains.dfy | sort_subdomains.py |

The disk is a value: `map<string, string>` from path to content.
The network, subprocesses and clocks are parameters:
- a function from request to reply;
- each stage's outcome;
- the records a regex extracted.

A Python log is the sequence of records it appends. Where a function of
the source mutates state step by step, the model is a method with a loop,
proved equal to a specification function. The specification function's
properties are proved as lemmas. The server's mutable fields live in a
class whose methods state the whole new state.

Two behaviours of the code differ from what the project's documentation describes; the model follows the code:
- **FFUF rows.** A data row of an FFUF CSV file shorter than a header of two or more fields is not silently skipped. Go's `csv.Reader` with `FieldsPerRecord == 0` fixes the field count from the first record, so such a row is a read error (`ErrFieldCount`), and `parseFFUFResults` fails with it (`App.ShortRowFailsParse`). The `len(record) < 2` skip can only drop rows when the header itself has fewer than two fields.
- **gnmap service lines.** The gnmap service line `80/open/tcp//http//Apache` is one whitespace-free token. `processGnmap` therefore skips it (`len(parts) < 2`): it is neither classified as interesting nor recorded as a named service (`App.SlashOnlyLineSkipped`).

## Model

| member | source | states |
|---|---|---|
| App.ReadFileLines | pkg/app/app.go:691-712 | an empty path is an error and so is a missing file; otherwise the result is the file's trimmed, non-blank, non-`#` lines in file order, each a clean one-line entry |
| App.ScopeLinesMembers | pkg/app/app.go:704-710 | a value is read exactly when it is the trimmed text of some line and is neither blank nor a comment |
| App.ScopeLinesOfJoined | pkg/app/app.go:691-712 | clean entries written one per line (no final line feed, as the pipeline writes them) read back unchanged |
| App.ListContains | pkg/app/app.go:747-754 | true exactly when the value is an element of the slice |
| App.Unique | pkg/app/app.go:719-735 | strictly ascending (hence duplicate-free) and holding exactly the non-empty input values |
| App.SortedList | pkg/app/app.go:728-733 | the keys of a set, strictly ascending, each present exactly once |
| App.SanitizeFilename | pkg/app/app.go:737-745 | the file name holds no `/`, `:` or space and is never longer than the input |
| App.ReplacedIsSafe | pkg/app/app.go:742-744 | the three replacements leave none of `/`, `:`, space |
| App.SanitizeIgnoresScheme | pkg/app/app.go:738-740 | a trimmed host with an `http://` or `https://` prefix gets the same file name as without it |
| App.SchemeDropped | pkg/app/app.go:739-740 | the two prefix removals strip exactly one scheme and nothing from a host that has none |
| App.SanitizeKeepsCleanName | pkg/app/app.go:737-745 | a trimmed name without `/`, `:`, space or a leading `www.` is kept as it is |
| App.SanitizeRemovesOneWww | pkg/app/app.go:741 | exactly one leading `www.` is removed |
| App.SanitizeNotIdempotent | pkg/app/app.go:741 | `www.www.a` sanitises to `www.a` and then to `a`: sanitising twice differs from once |
| App.InScopeMembers | pkg/app/app.go:528-533 | a domain survives the filter exactly when it is non-empty and not listed as out of scope |
| App.FilterOutOfScope | pkg/app/app.go:511-536 | when either list file is missing nothing changes; otherwise only the domains file is rewritten, with exactly the in-scope domains joined by line feeds, so it reads back as those domains in order and a non-empty result has no final line feed |
| App.KeepInScope | pkg/app/app.go:526-533 | the loop computes the in-scope sequence `InScope(domains, outOfScope)` |
| App.InScopeClean | pkg/app/app.go:526-535 | filtering clean entries leaves clean entries, so the rewritten file reads back as written |
| App.DataHitsEmpty | pkg/app/app.go:669-678 | no hits exactly when no data record has two or more fields |
| App.FirstFaultNone | pkg/app/app.go:661-667 | the parse meets a read error exactly when some read of the stream is an error |
| App.ParseFfufResults | pkg/app/app.go:644-681 | an unopenable file fails; the first read error is returned; otherwise `errNoFFUFHits` exactly when there is no data row or no data row has two or more fields, and else the hits are the second fields of the data rows, non-empty |
| App.CsvReads | pkg/app/app.go:651 | Go's CSV reader with `FieldsPerRecord == 0` gives one read per row |
| App.ShortRowFailsParse | pkg/app/app.go:651-667 | a data row shorter than a header of two or more fields makes the parse fail instead of being skipped |
| App.UniformRowsParse | pkg/app/app.go:651-667 | rows that all match the header's field count raise no read error |
| App.FlattenInputs | pkg/app/app.go:683-689 | same length as the hits, element `i` is hit `i`'s input |
| App.ExtractDisallows | pkg/app/app.go:782-791 | the loop returns `Disallows` of the body's line-feed pieces |
| App.DisallowsStep | pkg/app/app.go:784-789 | one more line adds its trimmed value exactly when the trimmed line starts with `Disallow:` |
| App.DisallowRoundTrip | pkg/app/app.go:782-791 | a body of `Disallow: p` lines (trimmed, one-line paths) yields exactly its paths, in order |
| App.DisallowsOfDirectives | pkg/app/app.go:782-791 | the directive lines of trimmed paths give back those paths |
| App.DirectiveLine | pkg/app/app.go:786-787 | `Disallow: p` yields `p` for a trimmed `p` |
| App.EmptyDirective | pkg/app/app.go:786-787 | an empty `Disallow:` yields the empty path rather than nothing |
| App.DisallowIsCaseSensitive | pkg/app/app.go:786 | a lower-case `disallow:` line yields nothing |
| App.ExtractSitemap | pkg/app/app.go:793-800 | the loop returns `Sitemap` of the body's line-feed pieces |
| App.SitemapOfDirective | pkg/app/app.go:794-797 | a first line `Sitemap: u`, with the key in any letter case, yields `u` whatever follows |
| App.SitemapFirst | pkg/app/app.go:794-797 | the first sitemap line decides: its text after the first colon, trimmed |
| App.AppendToFile | pkg/app/app.go:815-827 | empty content leaves the file unchanged; otherwise the content is added at the end and the file grows |
| App.RouteRobots | pkg/app/app.go:581-606 | a body without a `Disallow:` value fails with the rename error exactly when no `.robots.urls` file exists to move, and otherwise moves to the no-hits directory touching neither ledger; a body with one moves to the hits directory, writes the joined disallows as the URLs file, appends them to the hits ledger and appends a non-empty sitemap with a line feed to the sitemaps file |
| App.SitemapNeedsDisallow | pkg/app/app.go:582-606 | a body without a `Disallow:` line records no sitemap, even when it names one |
| App.RobotsRunFails | pkg/app/app.go:538-610 | the robots stage ends with an error exactly when some fetched target has no `Disallow:` value and no `.robots.urls` file, and the error is the rename error |
| App.RobotsRunStops | pkg/app/app.go:538-610 | a failing stage keeps the files of the targets before the first failing one and records nothing after it |
| App.Robots | pkg/app/app.go:538-610 | the loop over the fetched targets skips failed fetches, stops at the first failed move and ends as `RobotsRun` |
| App.LedgerJoinsTargets | pkg/app/app.go:597 | two single-line appends to the hits ledger read back as ONE line: the ledger has no separator between targets |
| App.InterestingLinesMembers | pkg/app/app.go:372-381 | a service line is flagged exactly when it has two or more tokens and its name or port is configured as interesting |
| App.ClassifyServices | pkg/app/app.go:371-383 | the loop yields the interesting lines in order and records exactly the lines with two or more tokens as services |
| App.SlashOnlyLineSkipped | pkg/app/app.go:373-376 | the one-token line `80/open/tcp//http//Apache` is skipped whatever the configuration |
| App.GnmapStep | pkg/app/app.go:357-387 | one more file adds its summary block, a pointer block exactly when it has interesting lines, and its multi-token service lines |
| App.NamedServiceSnoc | pkg/app/app.go:372-382 | a service is named after one more file exactly when it was before or is a multi-token line of that file |
| App.Summaries | pkg/app/app.go:369 | one summary block per file, in file order |
| App.BuildSearchsploitReport | pkg/app/app.go:409-416 | the builder loop produces `SearchsploitReport(services)`: a heading and a rule per service |
| App.ProcessGnmap | pkg/app/app.go:342-423 | disabled exactly when the config says so; otherwise the summary, pointers and services files hold the joined blocks, the services are strictly sorted and are exactly the named services, and a searchsploit report exists exactly when some service does |
| App.Run | pkg/app/app.go:48-90 | the stages ran in the fixed order, each logged before it ran, all but the last successful; the run succeeds exactly when all eight stages ran and the last succeeded; on failure the error is the last stage's |
| App.RunStage | pkg/app/app.go:49-52 | logs a stage's line and runs it; a failure ends the run with that error; success of the last stage ends it cleanly |
| Server.Recent | pkg/server/server.go:295-302 | at most 400 lines, all of a short transcript, else exactly its newest 400, oldest first |
| Server.RecentSnoc | pkg/server/server.go:295-302 | appending a line and cutting back to 400 keeps the ring equal to the newest 400 lines of the transcript |
| Server.LogLine | pkg/server/server.go:310 | a prefix of the segment with every trailing carriage return removed, and only those |
| Server.LogLines | pkg/server/server.go:306-311 | one recorded line per segment, each its `LogLine` |
| Server.SegmentsOfLines | pkg/server/server.go:305-309 | the pieces `Write` records are the text's lines; only an empty last piece is skipped |
| Server.LoggedOfLines | pkg/server/server.go:304-313 | lines written one per line feed are recorded exactly |
| Server.LoggedOfCrlfLines | pkg/server/server.go:304-313 | lines written one per CR LF pair are recorded exactly, without the carriage returns |
| Server.CarriageStripped | pkg/server/server.go:310 | a line followed by one carriage return is recorded without it |
| Server.ListPath | pkg/server/server.go:376-393 | a path exactly for one of the six list names in lower case, and each name maps to its own configured list path |
| Server.ListPathIgnoresCase | pkg/server/server.go:377 | names equal up to ASCII case name the same list |
| Server.ListPathExamples | pkg/server/server.go:376-393 | `Out_Of_Scope` and `APIDomains` reach their lists; `subdomains` is rejected |
| Server.ReadListLines | pkg/server/server.go:424-444 | the list's entries (`ListEntries`: nothing for an empty or missing path, else the trimmed non-blank lines), each non-empty, trimmed and one line |
| Server.ListEntriesKeepComments | pkg/server/server.go:436-440 | the server's list reader keeps a `#` line that the pipeline's reader drops |
| Server.AddUrl | pkg/server/server.go:150-210 | a bad request exactly when a field is empty, the list is unknown or the URL trims to nothing; `exists` exactly when the trimmed URL equals a listed entry ignoring case; `appended` exactly when the request is good, the URL is new and the list path is configured, and `internal error` exactly when that path is empty; only `appended` changes the disk, and then by the trimmed URL and a line feed at the end of the list file |
| Server.UrlHandler | pkg/server/server.go:150-210 | the handler computes exactly `AddUrl` |
| Server.ScanListed | pkg/server/server.go:180-189 | the scan finds a match exactly when some existing line equals the entry ignoring case |
| Server.AddUrlAppendsEntry | pkg/server/server.go:179-203 | on a file that is empty or ends in a line feed, the appended URL reads back as the list's new last entry |
| Server.AddUrlIdempotent | pkg/server/server.go:179-203 | on a list file that is empty or ends in a line feed, the new URL becomes the last entry, and adding it again in any letter case answers `exists` and leaves the disk unchanged |
| Server.EntriesAppendLine | pkg/server/server.go:203 | a line appended to a file that ends in a line feed becomes its last entry |
| Server.AddUrlJoinsUnterminatedLine | pkg/server/server.go:179-203 | on a file whose last line has no line feed (as the pipeline's filter writes it), the new URL is glued onto that line and the two read back as one entry |
| Server.JoinedLineEntries | pkg/server/server.go:424-444 | a file `previous + url + "\n"` reads back as the single entry `previous + url` |
| Server.FlowServer.constructor | pkg/server/server.go:40-47 | a new server is idle with an empty log and every step pending |
| Server.FlowServer.InitSteps | pkg/server/server.go:315-321 | the step table has one key per step id, each pending; nothing else changes |
| Server.FlowServer.RecordLog | pkg/server/server.go:295-302 | the transcript grows by the line, the ring stays within 400 and ends with it, nothing else changes |
| Server.FlowServer.Write | pkg/server/server.go:304-313 | reports all of `p` written without error and records exactly the lines of `p`, carriage returns stripped |
| Server.FlowServer.ResetSteps | pkg/server/server.go:323-329 | the same step ids, every one pending, nothing else changes |
| Server.FlowServer.UpdateStep | pkg/server/server.go:331-337 | only an already-known id changes, to the given status; an unknown id changes nothing |
| Server.FlowServer.StepsSnapshot | pkg/server/server.go:251-266 | one view per step, in step order, with its current status |
| Server.FlowServer.StartFlow | pkg/server/server.go:339-347 | while running: the error `flow already running` and no change; otherwise running, status `running`, every step pending |
| Server.FlowServer.FinishFlow | pkg/server/server.go:349-371 | the server is no longer running and reports the finish time; a failed run adds exactly its logged failure line to the transcript |
| Server.FailedRunScenario | pkg/server/server.go:339-371 | a fresh server starts, refuses a second start with `flow already running`, and after a failed run is idle with the finish-time status |
| Probe.WithScheme | utils/hop_by_hop_checker.py:69-73 | the URL always names a scheme; a URL that already had one is kept, anything else gets `https://` |
| Probe.WithSchemeIdempotent | utils/hop_by_hop_checker.py:69-73 | defaulting twice is defaulting once |
| Probe.WithSchemeKeepsDomain | utils/request_smuggling.py:113 | removing the added `https://` gives the domain back |
| ConfFile.ConfEntry | utils/request_smuggling.py:56-63 | a line yields a setting exactly when its stripped text is non-blank, not a comment and holds `=`; the key is stripped and `=`-free, the value has no surrounding quotes |
| ConfFile.PreparedKeepsEquals | utils/cloudflare.py:39 | deleting `export` never removes the `=` of an assigning line |
| ConfFile.Cut | utils/request_smuggling.py:60-62 | the split at the first `=` gives a stripped `=`-free key and an unquoted value |
| ConfFile.FirstEquals | utils/request_smuggling.py:60 | the first `=`: one at that index, none before it |
| ConfFile.ReadConf | utils/request_smuggling.py:51-66 | an unreadable file gives no settings; otherwise the settings its lines assign |
| ConfFile.ReadSettings | utils/request_smuggling.py:56-63 | the loop computes `Conf` of the lines |
| ConfFile.SettingsKeys | utils/request_smuggling.py:63 | a key is set exactly when some line assigns it |
| ConfFile.SettingsLastWins | utils/request_smuggling.py:63 | a key keeps the value of the last line that assigns it |
| ConfFile.ConfEntryOfAssignment | utils/request_smuggling.py:56-63 | a clean `KEY=value` line reads back as that setting |
| ConfFile.QuotedAssignment | utils/request_smuggling.py:62 | `KEY="value"` reads back with the quotes dropped |
| ConfFile.ReadOneAssignment | utils/request_smuggling.py:51-66 | a file of one clean `KEY=value` line sets exactly that key |
| ConfFile.ExportPrefixRemoved | utils/cloudflare.py:39 | the Cloudflare reader reads `export KEY=value` as `KEY=value` |
| ConfFile.ExportRemovedFromValue | utils/cloudflare.py:39 | it also cuts `export` out of a value: `KEY=exportvalue` reads as `value` |
| RequestSmuggling.Get | utils/request_smuggling.py:70-73 | the configured value when the key is present, else the default |
| RequestSmuggling.LogSettingsOf | utils/request_smuggling.py:69-73 | each of the four log settings is its configured value when present, else its default |
| RequestSmuggling.UnreadableConfDefaults | utils/request_smuggling.py:64-73 | with no readable configuration every setting has its default |
| RequestSmuggling.ConfiguredLogDir | utils/request_smuggling.py:69-73 | a configuration file holding only `LOG_DIR=value` moves the log directory and nothing else |
| RequestSmuggling.LogDirConf | utils/request_smuggling.py:51-66 | such a file reads as the single setting `LOG_DIR` |
| RequestSmuggling.Report | utils/request_smuggling.py:91-109 | one record exactly when the probe's status is one of the seven flagged codes, naming the test, target, status and headers |
| RequestSmuggling.RunProbe | utils/request_smuggling.py:139-145 | the probe logs its report and raises the flag exactly when its status is flagged |
| RequestSmuggling.BasicCheck | utils/request_smuggling.py:111-126 | vulnerable exactly when the basic probe's status is flagged, logging it to the basic log |
| RequestSmuggling.AdvancedReports | utils/request_smuggling.py:133-173 | records exactly when one of the CL.TE, TE.CL and TE.TE probes is flagged, at most three, all for the target |
| RequestSmuggling.AdvancedCheck | utils/request_smuggling.py:128-175 | all three probes run whatever the others did; vulnerable exactly when one is flagged |
| RequestSmuggling.TargetLogs | utils/request_smuggling.py:211-214 | a flagged basic probe skips the advanced ones; at most one log grows; one console verdict per target |
| RequestSmuggling.TargetFound | utils/request_smuggling.py:211-214 | a target is reported vulnerable exactly when one of its four probes is flagged |
| RequestSmuggling.CheckTarget | utils/request_smuggling.py:210-214 | one loop iteration adds exactly `TargetLogs`, and the target is found exactly when the basic probe or an advanced one is flagged |
| RequestSmuggling.RunVerdicts | utils/request_smuggling.py:210-214 | the console holds one verdict per target, in order, each its own |
| RequestSmuggling.Scan | utils/request_smuggling.py:210-214 | the loop adds exactly `RunLogs` of the targets |
| RequestSmuggling.Targets | utils/request_smuggling.py:194-207 | `-d` wins; a file that cannot be read or lists nothing ends the run, otherwise its stripped non-blank lines are scanned; with neither option nothing is scanned |
| Cloudflare.LogSettingsOf | utils/cloudflare.py:48-51 | each of the three log settings is its configured value when present, else its default |
| Cloudflare.UnreadableConfDefaults | utils/cloudflare.py:43-51 | with no readable configuration every setting has its default |
| Cloudflare.ExportedLogDir | utils/cloudflare.py:30-51 | a file holding `export LOG_DIR=value` moves the log directory and nothing else |
| Cloudflare.BypassLog | utils/cloudflare.py:101-123 | a warning exactly when the probe answered 200, and then it names the target first; another status logs nothing; a failed request logs one error naming the target |
| Cloudflare.CheckBypass | utils/cloudflare.py:101-123 | the probe goes to the scheme-defaulted URL and appends exactly `BypassLog` of its reply |
| Cloudflare.ScanWarnings | utils/cloudflare.py:143-144 | a target's bypass warning is logged exactly when it is a target and its probe answered 200 |
| Cloudflare.BypassLogWarning | utils/cloudflare.py:118-121 | one target's records warn about that target only, and only when bypassed |
| Cloudflare.WarningNames | utils/cloudflare.py:119 | different targets give different warnings |
| Cloudflare.Scan | utils/cloudflare.py:143-144 | the loop appends exactly `ScanLog` of the targets |
| Cloudflare.Targets | utils/cloudflare.py:129-147 | a usage error exactly unless one option is given; `-d` checks that domain; `-f` checks the file's stripped non-blank lines or reports that it cannot be read |
| Cloudflare.Run | utils/cloudflare.py:125-147 | a usage error exits 2 silently, an unreadable list logs its error and exits 1, otherwise every target is checked and the run exits 0 |
| HopByHop.VerdictOf | utils/hop_by_hop_checker.py:76-100 | a failed request is an error verdict; otherwise a status difference, else a content difference, else no finding |
| HopByHop.Written | utils/hop_by_hop_checker.py:85-95 | nothing with `--no-log`; the URL goes to the vulnerabilities file exactly on a finding, and then its status line goes to the statuses file; the differing-status file gets that line exactly on a status difference |
| HopByHop.CheckTarget | utils/hop_by_hop_checker.py:75-100 | the plain request goes first and the manipulated one only when it was answered; the outputs grow by exactly `Written` |
| HopByHop.StatusLineFields | utils/hop_by_hop_checker.py:112 | a status line splits back at ` \| ` into the URL and the two statuses |
| HopByHop.WrittenReadsBack | utils/hop_by_hop_checker.py:106-116 | each output file reads back line by line as the entries written |
| HopByHop.SplitLines | utils/hop_by_hop_checker.py:104 | `splitlines()` pieces hold no line break |
| HopByHop.SplitLinesOfWritten | utils/hop_by_hop_checker.py:102-104 | lines written one per line feed load back unchanged, blank lines and surrounding spaces included |
| HopByHop.TargetsOf | utils/hop_by_hop_checker.py:146-172 | a usage error exactly when neither option is given; `-d` wins; otherwise the list's lines, or a read failure |
| SsiEsi.LoadDomains | ssi_esi.py:6-8 | one-line, stripped, non-blank entries; a domain is loaded exactly when some line strips to it |
| SsiEsi.LoadDomainsOfWritten | ssi_esi.py:6-8 | a list written one domain per line loads back as itself |
| SsiEsi.PrepareUrl | ssi_esi.py:59-66 | the URL names a scheme; the scheme's default port leaves the URL as it is (a bare domain gets `https://`); any other port, including none, is appended |
| SsiEsi.OmittedPortAppendsNone | ssi_esi.py:59-66 | without `--port` every URL ends in `:None` |
| SsiEsi.PrepareUrlNotIdempotent | ssi_esi.py:59-66 | preparing a prepared URL appends a non-default port a second time |
| SsiEsi.FindingsMembers | ssi_esi.py:27-36 | a finding line is written exactly for a payload that a 200 reply reflects |
| SsiEsi.TestPayloads | ssi_esi.py:16-56 | the payload loop appends exactly the findings, in payload order |
| SsiEsi.TestDomain | ssi_esi.py:79-83 | one domain adds its SSI findings, then its ESI findings |
| SsiEsi.Scan | ssi_esi.py:77-83 | the loop appends exactly `ScanLog` of the domains |
| SsiEsi.FindingsReadBack | ssi_esi.py:11-13 | each finding is one line of the log, so the log reads back as its findings |
| GithubSearch.Tokens | dorking/github/_github_search.py:33-44 | tokens exactly when the token file exists and has a non-blank line, and then its stripped non-blank lines |
| GithubSearch.StepsAdd | dorking/github/_github_search.py:50-54 | rotations compose: `a` rotations then `b` equal `a + b` |
| GithubSearch.StepsNoWrap | dorking/github/_github_search.py:50-54 | before the last token, `k` rotations advance the index by exactly `k` |
| GithubSearch.FullCycle | dorking/github/_github_search.py:50-54 | as many rotations as tokens return to the same token |
| GithubSearch.TokenRing.Rotate | dorking/github/_github_search.py:50-54 | the index advances by one modulo the number of tokens and the new current token is returned |
| GithubSearch.GetSearchFiles | dorking/github/_github_search.py:62-68 | exactly the listed `.txt` files other than the token and hit files |
| GithubSearch.HitFilesSkipped | dorking/github/_github_search.py:62-68 | the hit files and the token file are never searched |
| GithubSearch.GetUrlsFromFile | dorking/github/_github_search.py:70-78 | strictly ascending; exactly the stripped lines that start with the search prefix |
| GithubSearch.FoundAll | dorking/github/_github_search.py:74-77 | after the reading loop the set holds exactly the search URLs among the stripped lines |
| GithubSearch.InUrlRewrite | dorking/github/_github_search.py:86 | the rewrite of an empty query is empty and of a non-empty one non-empty |
| GithubSearch.QuotedInUrl | dorking/github/_github_search.py:86 | `in:url"value"` becomes `in:url:value` |
| GithubSearch.NoInUrlUnchanged | dorking/github/_github_search.py:86 | a query without an `in:url` term is searched as it is |
| GithubSearch.RewriteAddsColon | dorking/github/_github_search.py:86 | `in:url:value` becomes `in:url::value`, so the rewrite is not idempotent |
| GithubSearch.SearchSpec | dorking/github/_github_search.py:134-177 | nothing is sent for an exhausted retry count or an empty query; at most `MAX_RETRIES - retry` requests; a result needs a request; rotations never exceed requests |
| GithubSearch.FirstAnswerWins | dorking/github/_github_search.py:146-162 | a good first answer is the result, after one request and no rotation |
| GithubSearch.AllUnauthorized | dorking/github/_github_search.py:151-153 | with every token refused, each remaining attempt rotates and nothing is found |
| GithubSearch.AllFailing | dorking/github/_github_search.py:164-177 | with every request raising, exactly the remaining attempts are spent and nothing is found |
| GithubSearch.Search | dorking/github/_github_search.py:134-177 | the recursive search returns `SearchSpec`'s result, counts its requests and rotates the ring by its rotations |
| GithubSearch.Retry | dorking/github/_github_search.py:151-177 | the retrying branches (a 401 that rotates the token, a 403, an error status, a raised request) finish the search as `SearchSpec` does, with its requests and rotations |
| GithubSearch.HitLog | dorking/github/_github_search.py:198-201 | a hit (a positive `total_count`) logs the URL to the minimal file and one verbose entry; anything else logs nothing |
| GithubSearch.Searcher | dorking/github/_github_search.py:196 | every search of a URL takes at most `MAX_RETRIES` requests |
| GithubSearch.CheckRateLimit | dorking/github/_github_search.py:102-123 | each 401 from the rate-limit endpoint rotates the token once; the tokens are unchanged |
| GithubSearch.UrlRunOf | dorking/github/_github_search.py:186-205 | one URL adds at most one minimal hit, and its rotations include every refusal of its rate-limit check |
| GithubSearch.FileRunOf | dorking/github/_github_search.py:185-212 | no more minimal hits than URLs |
| GithubSearch.RotationsCoverRefusals | dorking/github/_github_search.py:185-196 | a file rotates the ring at least once per refusal of its rate-limit checks |
| GithubSearch.FileRequestsBounded | dorking/github/_github_search.py:185-212 | one file costs at most `MAX_RETRIES` requests per URL |
| GithubSearch.FileHitsAreHits | dorking/github/_github_search.py:198-201 | only URLs of the file reach the minimal hit file and every verbose entry has a positive count |
| GithubSearch.RequestsBounded | dorking/github/_github_search.py:185-212 | any search bounded by `MAX_RETRIES` requests per call bounds a file by `MAX_RETRIES` per URL |
| GithubSearch.ProcessUrl | dorking/github/_github_search.py:186-205 | one pass checks the rate limit and searches the URL: it appends the URL's hit log, counts the search's requests and rotates the ring by the check's refusals plus the search's rotations |
| GithubSearch.ProcessFile | dorking/github/_github_search.py:179-214 | the loop appends exactly the file's hits, counts its requests and leaves the ring rotated by the file's rotations, those of the rate-limit checks included |
| PingDistribute.Repeat | fuzzing/ffuf/ping_distribute.py:17 | `'-' * 50`: `n` copies of the character |
| PingDistribute.FirstMatch | fuzzing/ffuf/ping_distribute.py:25-27 | the leftmost position of a match from `from` on, or none |
| PingDistribute.Capture | fuzzing/ffuf/ping_distribute.py:25-32 | a captured group is non-empty and made of characters of its class |
| PingDistribute.CaptureMeaning | fuzzing/ffuf/ping_distribute.py:25-27 | a capture is missing exactly when the pattern matches nowhere; what it captures follows an occurrence of the label |
| PingDistribute.CaptureByLine | fuzzing/ffuf/ping_distribute.py:25-27 | the search finds its match in the first line that has one |
| PingDistribute.Parse | fuzzing/ffuf/ping_distribute.py:25-32 | a parsed record has a non-empty one-line URL, a non-empty all-digit status and a non-empty one-line response; a text without a status gives no record |
| PingDistribute.ParseRecordBody | fuzzing/ffuf/ping_test.py:22-25 | what the ping test writes for an answered request parses back as its URL, status and response |
| PingDistribute.ErrorRecordDropped | fuzzing/ffuf/ping_test.py:27-29 | what it writes for a request that raised has no status and is dropped |
| PingDistribute.StatusFileInjective | fuzzing/ffuf/ping_distribute.py:35 | different statuses go to different files |
| PingDistribute.RecordsByMembers | fuzzing/ffuf/ping_distribute.py:20-32 | a record is drawn exactly from a case that parses to it |
| PingDistribute.RecordsMembers | fuzzing/ffuf/ping_distribute.py:20-32 | a record is extracted exactly from a non-blank case that parses to it |
| PingDistribute.WithStatus | fuzzing/ffuf/ping_distribute.py:35 | the records of one status, in order |
| PingDistribute.RoutedContents | fuzzing/ffuf/ping_distribute.py:35-40 | each status file grows by exactly the records with that status, in order |
| PingDistribute.RoutedElsewhere | fuzzing/ffuf/ping_distribute.py:35-40 | no other file is created or changed |
| PingDistribute.Distribute | fuzzing/ffuf/ping_distribute.py:13-40 | the loop appends exactly the records of the split content to their status files |
| PingDistribute.RouteCase | fuzzing/ffuf/ping_distribute.py:21-40 | a blank or unparsable case changes nothing; a record is appended, with its separator, to its status file |
| PingDistribute.WrittenRecordsRead | fuzzing/ffuf/ping_distribute.py:13-32 | records written as the ping test writes answered requests, split at the separators and parsed, give back exactly those records |
| PingDistribute.SplitOfTerminated | fuzzing/ffuf/ping_distribute.py:17 | splitting separator-terminated pieces gives the pieces and an empty last one |
| SortSubdomains.Bucket | sort_subdomains.py:32-35 | a bucket never holds more subdomains than were read |
| SortSubdomains.BucketMap | sort_subdomains.py:32-35 | the dictionary's keys are exactly the codes seen, each mapped to its bucket |
| SortSubdomains.CodesMembers | sort_subdomains.py:32-34 | a code is a key exactly when some subdomain answered with it |
| SortSubdomains.CodesDistinct | sort_subdomains.py:33-34 | the keys are distinct |
| SortSubdomains.NoZeroCode | sort_subdomains.py:32 | nothing is filed under the falsy code 0 |
| SortSubdomains.BucketCount | sort_subdomains.py:32-35 | a bucket holds each subdomain filed under its code as often as it was read, and nothing else |
| SortSubdomains.BucketMapFiled | sort_subdomains.py:32-35 | a filed subdomain joins the end of its code's bucket, and no other |
| SortSubdomains.BucketUnseen | sort_subdomains.py:32-35 | a code that no subdomain answered with has an empty bucket |
| SortSubdomains.BucketMapSkip | sort_subdomains.py:32 | a subdomain without a truthy code changes nothing |
| SortSubdomains.FileLine | sort_subdomains.py:27-35 | a blank or unanswered line changes nothing; otherwise its stripped text joins its code's bucket, the code added to the order when new |
| SortSubdomains.Group | sort_subdomains.py:26-35 | the loop builds exactly `BucketMap` and `Codes` of the stripped non-blank lines |
| SortSubdomains.CodeFileInjective | sort_subdomains.py:39 | different codes are written to different files |
| SortSubdomains.WrittenContents | sort_subdomains.py:38-42 | each code's file holds its subdomains, one per line, whatever was there before |
| SortSubdomains.WrittenElsewhere | sort_subdomains.py:38-43 | no other file is created or changed |
| SortSubdomains.WriteLines | sort_subdomains.py:41-42 | each subdomain followed by a line feed; the text reads back as the subdomains unless one of them holds a line feed |
| SortSubdomains.WriteFiles | sort_subdomains.py:38-43 | the writing loop produces exactly `Written` |
| SortSubdomains.SortSubdomains | sort_subdomains.py:12-46 | a missing input writes nothing; otherwise one file per code seen, and the notice exactly when no code was seen |
| SortSubdomains.NoneValidIff | sort_subdomains.py:45-46 | the notice is printed exactly when no subdomain answered with a truthy code |
| Text.Trim | pkg/app/app.go:705 | the result has no whitespace at either end, is no longer than the input and holds only its characters |
| Text.Strip | utils/request_smuggling.py:62 | neither end is a stripped character, the result holds only input characters, and an input whose ends are not stripped characters is kept |
| Text.TrimPrefix | pkg/app/app.go:739-741 | the prefix is removed once when present; otherwise the string is kept |
| Text.ReplaceChar | pkg/app/app.go:742-744 | same length, every occurrence replaced and nothing else changed |
| Text.ToLower | pkg/server/server.go:377 | ASCII letters lower-cased position by position |
| Text.ToLowerIdempotent | pkg/server/server.go:377 | lower-casing twice is lower-casing once |
| Text.Split | pkg/app/app.go:784 | at least one piece, none holding the separator |
| Text.SplitJoin | pkg/app/app.go:784 | splitting joined separator-free pieces gives them back |
| Text.JoinSplit | pkg/app/app.go:784 | joining the pieces of a split gives the string back |
| Text.Lines | pkg/app/app.go:703-704 | the lines of a file hold no line feed |
| Text.LinesOfWritten | pkg/app/app.go:703-704 | lines written one per line feed read back exactly |
| Text.LinesAppendLine | pkg/server/server.go:203 | appending a line and a line feed to a line-terminated file adds exactly that line |
| Text.EntriesMembers | pkg/app/app.go:704-710 | an entry is exactly a kept trimmed line |
| Text.EntriesOfJoined | pkg/server/server.go:424-444 | clean entries joined by line feeds read back as themselves |
| Text.SplitOn | utils/hop_by_hop_checker.py:112 | Python's `split` of a non-empty separator gives at least one piece |
| Text.RemoveAll | utils/cloudflare.py:39 | never longer than the input; a text without the pattern is kept |
| Text.RemoveAllKeepsChar | utils/cloudflare.py:39 | removing a pattern keeps every character the pattern lacks |
| Text.Fields | pkg/app/app.go:373 | each field is non-empty and holds no whitespace |
| Text.FieldsOfWord | pkg/app/app.go:373-376 | a whitespace-free word is its only field |
| Text.Insert | pkg/app/app.go:733 | inserting into a strictly ascending sequence keeps it strictly ascending, with one more element |
| Text.SortedUnique | pkg/app/app.go:733 | two strictly ascending sequences with the same elements are equal |
| Text.IndexOf | utils/cloudflare.py:38 | the first occurrence of the pattern, or none |
| Text.IntToString | sort_subdomains.py:39 | a non-empty rendering, negative exactly for negative integers |
| Text.IntToStringInjective | sort_subdomains.py:39 | different integers render differently |
| Text.DecimalRoundTrip | sort_subdomains.py:39 | the decimal digits read back as the number |
| Text.SplitAppend | pkg/app/app.go:784 | splitting text around one separator splits each side separately |
| Text.LinesOfSplit | pkg/app/app.go:703-704 | the lines of a file are its line-feed pieces, without an empty last piece |
| Text.TrimOfTrimmed | pkg/app/app.go:705 | trimming trimmed text changes nothing |
| Text.IndexOfAbsent | utils/cloudflare.py:38 | a pattern whose first character is absent is not found |

## Left out

- Processes: every command and shell script the pipeline runs is left out (`runCommand`, `runShell`, `scanFile`, searchsploit, the tools in `securityChecks`). Only a stage's success or failure enters the model, as the `outcome` of `App.Run`.
- Pipeline stages: `prepareDirectories`, `passiveRecon`, `fuzzDocumentation`, `fuzzDirectories`, `nmapScan`, `scanIPs` and `securityChecks` are outcomes of `App.Run`, not modelled step by step. They consist of directory creation and subprocess calls around the modelled helpers.
- Word lists and targets: `buildFuzzWordlist`, `organizeDorkOutputs` and `collectTargets` are not modelled. They are map-and-subprocess glue around `App.Unique` and `App.ReadFileLines`, which are.
- `readSafeLines` and `moveRobotFiles` are not modelled separately. The first is `App.ReadFileLines` with errors mapped to no lines. The second is two renames: `App.RouteRobots` models their destination and the failure of the second rename when no `.robots.urls` file was written.
- Robots file system errors: other failures of the write, the renames and the appends in `robots`, and an empty configured bucket directory (`empty target directory`), are not modelled. The files are a value, not a disk that can refuse a write.
- Regular expressions: `extractField`, `extractList` and `extractServiceLines` are not modelled. `App.ProcessGnmap` takes each file's already extracted target, host, ports and service lines.
- CSV: the CSV reader's quoting and escaping are not modelled. `App.ParseFfufResults` takes the stream of read results; only its field-count rule is modelled (`App.CsvReads`).
- Network: the robots.txt fetch, every HTTP probe and the GitHub API are not modelled. Each reply is a parameter: a function from request to reply, or the sequence of replies.
- Time: the HTTP client's timeouts, `time.sleep` delays, the remaining quota and reset time of the GitHub rate-limit check (and the sleep they cause), and all timestamps are left out. The finish time of a server run is a parameter of `Server.FlowServer.FinishFlow`.
- Server concurrency: the server's mutexes and the run goroutine are left out. `StartFlow` and `FinishFlow` model the two critical sections, in sequence.
- The HTTP layer is left out: routing, CORS, JSON encoding, the multipart upload (`uploadHandler`, `saveTemporaryFile`), and the status, logs and list handlers, which copy modelled state.
- Server logger header: the `log.Logger` prefix and date header are a parameter of `FinishFlow`.
- Step table: `app.FlowSteps`, `app.StepStatus` and the step-reporting callback are not defined in pkg/app/app.go as given. Steps are modelled as abstract `(id, title)` pairs and a status as `Pending` or a reported name.
- pkg/config/config.go is not part of this model. The list paths and the nmap summary settings are plain parameters.
- Thread pool: `run_checks_in_threads` of the hop-by-hop checker is left out, because its results do not depend on the order of the workers. `HopByHop.CheckTarget` models one check; the order of appended lines across targets is not modelled.
- `run_cloudscan` of utils/cloudflare.py is left out: it calls an external script and refers to names the file never defines.
- Python logging is left out: the `logging` formatting, the console `print` calls, the ANSI colours and the `setup`/`setup_logging` directory creation. Logs are the sequences of records each script appends.
- `extract_github_search_query`'s URL parsing (`urlparse`, `parse_qs`, `unquote_plus`) is a parameter `extract`. Only its `in:url` rewrite is modelled (`GithubSearch.InUrlRewrite`).
- GithubSearch.CheckRateLimit: takes the number of 401 answers as a parameter, so it always ends. An endpoint that refuses every token forever makes the script recurse until Python's recursion limit, which is not modelled.
- Go's `bufio.Scanner` refuses a line longer than 64 KiB (`ErrTooLong`) in `readFileLines` and `readListLines`. That error is not modelled: every line is read.
- Python's text mode also ends a line at a lone carriage return (universal newlines). `Text.Lines` splits only at line feeds; the two agree on files with `\n` or `\r\n` line ends.
- Server.FlowServer.Write: the count it returns is in characters, while Go's `Write` counts bytes. The two agree on ASCII text.
- GitHub main block: the `KeyboardInterrupt` path and `move_to_processed` are left out. `GithubSearch.ProcessFile` models a file processed to the end.
- Unicode: whitespace is the ASCII set (space, tab, line feed, carriage return, vertical tab, form feed). Go's `TrimSpace` and Python's `strip()` also trim Unicode spaces; case folding is ASCII only.
- ConfFile.ExportPrefixRemoved: stated only for keys and values without the letter `e`, because removing every `export` from a longer text depends on where else those letters occur.
- ConfFile.ExportRemovedFromValue: stated only for keys and values without the letter `e`, for the same reason.
- Cloudflare.ExportedLogDir: stated only for values without the letter `e`, for the same reason.
- GithubSearch.FileRunOf: its own contract only bounds the hits. The request bound and the shape of the hits are the lemmas `FileRequestsBounded` and `FileHitsAreHits`.
- PingDistribute.Capture models `re.search` only for a fixed label followed by a greedy run of one character class, which is the shape of the three patterns used.
- PingDistribute.Parse uses ASCII digits for Python's `\d`.
