# domain-checker, modelled in Dafny

This project models the core of `domain-checker`, a PHP console command that reads
domain names from a CSV file and reports, for each one, whether it is available,
registered, or could not be checked. The model covers:

- **`DomainCheckerService`**: the checker and its classifier (modules `Checker` and `Patterns`).
  - It extracts the TLD and tests it against the WHOIS client's supported list.
  - It asks the client for the raw response.
  - It classifies the response with two per-TLD pattern tables. The registered pattern
    is tried first, then the available pattern; Registered is the default.
- **`CheckDomainsCommand`**: the concurrency clamp, grouping by TLD and the round loop
  (module `Scheduler`), and the table tallies and CSV lines (module `Report`).
  - A round takes the front domain of each TLD group, at most `concurrency` of them.
- **`AsyncWhoisClient`**: TLD routing, the server tables, the query line, the chunk read
  loop and the RDAP status frame (module `AsyncWhois`).
- **`WhoisClient`**: the unused synchronous client, with its `fgets`/`feof` loop (module `SyncWhois`).
- **`CsvReaderService`**: the `readDomains` row loop and the `isValidDomain` grammar (module `CsvReader`).
- **Shared code**:
  - `DomainStatus` and `DomainCheckResult` are in module `Domain`;
  - PHP string functions (`strtolower`, `trim`, `explode`) are in module `Text`;
  - the query-line builder and chunk concatenation shared by both clients are in module `Wire`;
  - the scenarios of `DomainCheckerServiceTest` are in module `CheckerTests`.

The model replaces the things the program cannot see with values:

- The WHOIS client interface becomes a value `Checker.Client`. It holds the supported list
  and a query function that returns the response or null.
- The network becomes a value `Network`:
  - for the asynchronous client, what a connection to an address answers to a line, and
    what an HTTP request returns;
  - for the synchronous client, whether a host can be opened and what it sends back.
- A CSV file becomes one of three cases: missing, not openable, or readable with rows
  that are already split into cells.

Sockets and file handles that the PHP code reads step by step are classes whose
position advances with each read:

- `AsyncWhois.Socket`;
- `SyncWhois.Stream`;
- `CsvReader.CsvHandle`.

Each loop over them is a method proved against a function that states its result.

## Model

| member | source | states |
|---|---|---|
| Domain.StatusValue | src/Service/DomainStatus.php:7-12 | each case's backing string is non-empty |
| Domain.StatusValueInjective | src/Service/DomainStatus.php:9-11 | different cases have different backing strings |
| Domain.Verdict | src/Service/DomainCheckResult.php:9-15 | a result built without a message has a null error message, the given domain and the given TLD |
| Domain.TldKeyShape | src/Command/CheckDomainsCommand.php:332-333 | a grouping key holds no dot and is already lower-case |
| Domain.TldKeyAfterLast | src/Command/CheckDomainsCommand.php:332-333 | the grouping key is the text after the last dot (the whole string without one), lower-cased |
| Text.LowerIdempotent | src/Service/DomainCheckerService.php:68 | ASCII `strtolower` applied twice equals applied once |
| Text.LowerAppend | src/Service/DomainCheckerService.php:68 | `strtolower` works character by character: it distributes over concatenation |
| Text.LastIndexOf | src/Service/DomainCheckerService.php:63-68 | the position of the last occurrence of a character, or None exactly when it does not occur |
| Text.AfterLast | src/Service/DomainCheckerService.php:63-68 | `end(explode(sep, s))`: a dot-free suffix of `s`; all of `s` when `sep` is absent, otherwise the text right after the last `sep` |
| Text.TrimShape | src/Service/CsvReaderService.php:42 | `trim` returns something no longer than its input, with no trimmable character at either end |
| Text.TrimIdempotent | src/Service/CsvReaderService.php:30 | trimming twice equals trimming once |
| Text.TrimStartShape | src/Service/CsvReaderService.php:42 | the left strip removes a prefix of trimmable characters only and leaves a suffix not starting with one |
| Text.TrimEndShape | src/Service/CsvReaderService.php:42 | the right strip removes a suffix of trimmable characters only and leaves a prefix not ending with one |
| Text.Split | src/Service/DomainCheckerService.php:63 | `explode` always returns at least one part, and no part holds the separator |
| Text.SplitJoin | src/Service/DomainCheckerService.php:63 | joining the parts of `explode` with the separator gives back the string |
| Text.JoinSplit | src/Command/CheckDomainsCommand.php:301-307 | splitting a join of separator-free parts gives back the parts |
| Text.DecimalString | src/Service/AsyncWhoisClient.php:104 | PHP's decimal rendering of a status code is non-empty and all digits |
| Text.DecimalRoundTrip | src/Service/AsyncWhoisClient.php:104 | reading the decimal rendering back gives the number |
| Patterns.AvailableTable | src/Service/DomainCheckerService.php:9-23 | exactly the thirteen TLDs of `AVAILABLE_PATTERNS` have an available pattern, and none is listed twice |
| Patterns.ContainsAlternative | src/Service/DomainCheckerService.php:10-22 | a caseless substring pattern matches any response containing one of its alternatives |
| Patterns.LeadGapMatch | src/Service/DomainCheckerService.php:13-26 | a "Status:" pattern matches a response holding "Status:", any PCRE whitespace, then an alternative in any case; for `/m` patterns this must be at the start of a line |
| Patterns.CaseSensitiveNeedsChar | src/Service/DomainCheckerService.php:15 | a case-sensitive pattern cannot match a response lacking the first character of every alternative |
| Patterns.AbsentCharNoMatch | src/Service/DomainCheckerService.php:10-22 | a pattern cannot match when each alternative holds a character absent from the response |
| Patterns.AbsentLettersNoMatch | src/Service/DomainCheckerService.php:10-22 | a caseless pattern cannot match when each alternative holds a letter absent from the response in both cases |
| Checker.ExtractTld | src/Service/DomainCheckerService.php:61-69 | null exactly when the domain has no dot; otherwise a dot-free, lower-case TLD |
| Checker.ExtractTldIsKey | src/Service/DomainCheckerService.php:61-69 | the TLD that `check` reports is the key the command groups the domain under |
| Checker.ExtractTldOf | src/Service/DomainCheckerService.php:61-69 | the TLD of "name.tld" is `tld` lower-cased, whatever dots `name` holds |
| Checker.ParseResponse | src/Service/DomainCheckerService.php:71-85 | the verdict keeps the domain and TLD, has a null message and is never Error |
| Checker.Check | src/Service/DomainCheckerService.php:34-54 | every path returns a result that keeps the domain and the extracted TLD; the status is Error exactly when there is a non-empty error message |
| Checker.SupportedTldsDecideSupport | src/Service/DomainCheckerService.php:42-59 | the forwarded list decides support: a TLD is reported unsupported iff it is not in the list |
| Checker.RegisteredTakesPrecedence | src/Service/DomainCheckerService.php:76-78 | a response matching the registered pattern is Registered, whatever else it matches |
| Checker.AvailableExactly | src/Service/DomainCheckerService.php:76-84 | the verdict is Available iff the response matches the available pattern and not the registered one |
| Checker.NoAvailablePatternMeansRegistered | src/Service/DomainCheckerService.php:73-84 | a TLD with no available pattern is always Registered |
| Checker.EuStatusLineRegistered | src/Service/DomainCheckerService.php:26-78 | an `eu` line "Status:" + whitespace + NOT AVAILABLE or REGISTERED, in any case, gives Registered |
| Checker.CheckWithoutDot | src/Service/DomainCheckerService.php:36-40 | a dot-free domain gives Error, a null TLD and "Could not extract TLD" |
| Checker.CheckUnsupported | src/Service/DomainCheckerService.php:42-45 | an unsupported TLD gives Error with "Unsupported TLD: .tld" and keeps the TLD |
| Checker.CheckIgnoresQueryWhenUnsupported | src/Service/DomainCheckerService.php:36-45 | with no TLD or an unsupported one, the result does not depend on the client's query function |
| Checker.CheckQueryFailed | src/Service/DomainCheckerService.php:47-51 | a null response gives Error with "WHOIS query failed" and keeps the TLD |
| Checker.CheckClassifies | src/Service/DomainCheckerService.php:47-53 | a supported TLD with a response gives the classifier's verdict on that response |
| CheckerTests.TestTldOf | tests/Service/DomainCheckerServiceTest.php:16 | each test TLD (and `xyz`) is extracted unchanged from "name.tld" |
| CheckerTests.UnsupportedTldScenario | tests/Service/DomainCheckerServiceTest.php:54-68 | `name.xyz` is Error "Unsupported TLD: .xyz" with TLD `xyz`, whatever the mock answers |
| CheckerTests.QueryFailsScenario | tests/Service/DomainCheckerServiceTest.php:86-101 | `name.com` with a null answer is Error "WHOIS query failed" with TLD `com` |
| CheckerTests.SupportedTldsScenario | tests/Service/DomainCheckerServiceTest.php:103-112 | `getSupportedTlds` hands back the mock's list, which equals the synchronous client's table keys in order |
| CheckerTests.ClassifiedScenario | tests/Service/DomainCheckerServiceTest.php:18-52 | for a test TLD, `check` gives the classifier's verdict on the mock's response |
| CheckerTests.AvailableScenario | tests/Service/DomainCheckerServiceTest.php:18-34 | a response containing one of the TLD's caseless alternatives is Available with a null message |
| CheckerTests.CzAvailable | tests/Service/DomainCheckerServiceTest.php:116-119 | the `cz` available fixture is Available |
| CheckerTests.ComAvailable | tests/Service/DomainCheckerServiceTest.php:121-124 | the `com` available fixture is Available |
| CheckerTests.NetAvailable | tests/Service/DomainCheckerServiceTest.php:126-129 | the `net` available fixture is Available |
| CheckerTests.EuAvailable | tests/Service/DomainCheckerServiceTest.php:131-134 | the `eu` available fixture is Available: its status line matches, and it holds no text of the registered pattern |
| CheckerTests.EuAvailableLine | tests/Service/DomainCheckerServiceTest.php:131-134 | an `eu` response with a "Status: AVAILABLE" line and no registered text is Available |
| CheckerTests.EuAvailableStatusLine | src/Service/DomainCheckerService.php:13 | a "Status:" line with whitespace and AVAILABLE matches the `eu` available pattern |
| CheckerTests.EuRegisteredAbsent | src/Service/DomainCheckerService.php:26 | an `eu` response with no 'n' and no 'g' in either case cannot match the registered pattern |
| CheckerTests.OrgAvailable | tests/Service/DomainCheckerServiceTest.php:136-139 | the `org` available fixture is Available |
| CheckerTests.DevWhoisTextIsRegistered | tests/Service/DomainCheckerServiceTest.php:141-144 | the test's `dev` "available" fixture is Registered under the code (see Findings) |
| CheckerTests.AiAvailable | tests/Service/DomainCheckerServiceTest.php:146-154 | both `ai` available fixtures are Available |
| CheckerTests.InfoAvailable | tests/Service/DomainCheckerServiceTest.php:156-159 | the `info` available fixture is Available |
| CheckerTests.DeStatusFree | src/Service/DomainCheckerService.php:19 | "Status:", whitespace, then "free" in any case matches the `de` available pattern |
| CheckerTests.DeAvailable | tests/Service/DomainCheckerServiceTest.php:161-164 | the `de` available fixture is Available |
| CheckerTests.AtAvailable | tests/Service/DomainCheckerServiceTest.php:166-169 | the `at` available fixture is Available |
| CheckerTests.EsAvailable | tests/Service/DomainCheckerServiceTest.php:171-179 | both `es` available fixtures are Available |
| CheckerTests.UsAvailable | tests/Service/DomainCheckerServiceTest.php:181-184 | the `us` available fixture is Available |
| CheckerTests.AbsentCharsScenario | tests/Service/DomainCheckerServiceTest.php:36-52 | a test TLD's response lacking, in both cases, a letter of each available alternative is Registered |
| CheckerTests.CzWithoutLetterRegistered | tests/Service/DomainCheckerServiceTest.php:189-192 | a `cz` response with no 'f' or 'F' is Registered, which covers the fixture |
| CheckerTests.ComWithoutLetterRegistered | tests/Service/DomainCheckerServiceTest.php:194-197 | a `com` response with no 'f' or 'F' is Registered |
| CheckerTests.NetWithoutLetterRegistered | tests/Service/DomainCheckerServiceTest.php:199-202 | a `net` response with no 'f' or 'F' is Registered |
| CheckerTests.EuRegistered | tests/Service/DomainCheckerServiceTest.php:204-212 | both `eu` registered fixtures are Registered |
| CheckerTests.OrgWithoutLetterRegistered | tests/Service/DomainCheckerServiceTest.php:214-217 | an `org` response with no 'f' or 'F' is Registered |
| CheckerTests.DevWithoutHRegistered | tests/Service/DomainCheckerServiceTest.php:219-222 | a `dev` response with no 'H' is Registered |
| CheckerTests.AiWithoutLetterRegistered | tests/Service/DomainCheckerServiceTest.php:224-227 | an `ai` response with no 'f' or 'F' is Registered |
| CheckerTests.InfoWithoutLetterRegistered | tests/Service/DomainCheckerServiceTest.php:229-232 | an `info` response with no 'u' or 'U' is Registered |
| CheckerTests.DeWithoutLetterRegistered | tests/Service/DomainCheckerServiceTest.php:234-237 | a `de` response with no 'f' or 'F' is Registered |
| CheckerTests.AtWithoutLetterRegistered | tests/Service/DomainCheckerServiceTest.php:239-242 | an `at` response with no 'f' or 'F' is Registered |
| CheckerTests.EsWithoutLetterRegistered | tests/Service/DomainCheckerServiceTest.php:244-247 | an `es` response with no 'b' and no 'x' in either case is Registered |
| CheckerTests.UsWithoutLetterRegistered | tests/Service/DomainCheckerServiceTest.php:249-252 | a `us` response with no 'f' or 'F' is Registered |
| Wire.BuildQuery | src/Service/AsyncWhoisClient.php:118-124 | the query ends with the domain; for `de` it is the DENIC prefix then the domain, for every other TLD just the domain |
| Wire.QueryLine | src/Service/AsyncWhoisClient.php:71-72 | the line written ends in CRLF |
| Wire.QueryLineRoundTrip | src/Service/AsyncWhoisClient.php:118-124 | the domain can be read back from the line written for it |
| Wire.QueryLineInjective | src/Service/WhoisClient.php:61-67 | different domains give different query lines under the same TLD |
| Wire.ConcatAppend | src/Service/AsyncWhoisClient.php:74-77 | concatenating chunks distributes over appending chunk lists |
| Wire.ConcatChunkAt | src/Service/AsyncWhoisClient.php:74-77 | each chunk appears in the response at the offset where the chunks before it end |
| AsyncWhois.WhoisTable | src/Service/AsyncWhoisClient.php:16-38 | a TLD has a WHOIS server exactly when it is a key of `WHOIS_SERVERS` |
| AsyncWhois.WhoisTldsDistinct | src/Service/AsyncWhoisClient.php:16-38 | the 21 WHOIS keys are pairwise different |
| AsyncWhois.RdapServer | src/Service/AsyncWhoisClient.php:40-42 | only `dev` has an RDAP server |
| AsyncWhois.SupportedTldsExactly | src/Service/AsyncWhoisClient.php:110-116 | the supported list has 22 distinct TLDs: the WHOIS keys, then the RDAP keys |
| AsyncWhois.Address | src/Service/AsyncWhoisClient.php:69 | the address is the host followed by ":43" |
| AsyncWhois.Socket.Read | src/Service/AsyncWhoisClient.php:75 | `read()` gives the next chunk, or at the end null or an exception, advancing one chunk at a time |
| AsyncWhois.ReadAll | src/Service/AsyncWhoisClient.php:74-81 | the loop returns the in-order concatenation of every chunk, or null when reading throws |
| AsyncWhois.QueryWhois | src/Service/AsyncWhoisClient.php:56-85 | returns the WHOIS result; the line sent is the query line; on success the socket is closed |
| AsyncWhois.FrameRoundTrip | src/Service/AsyncWhoisClient.php:104 | the status and the body can both be read back from the RDAP frame, for every status |
| AsyncWhois.Query | src/Service/AsyncWhoisClient.php:47-54 | `query` returns RDAP's result for TLDs with an RDAP server and WHOIS's otherwise |
| AsyncWhois.DevUsesRdap | src/Service/AsyncWhoisClient.php:87-107 | `dev` goes to RDAP: the frame of the HTTP reply to base URL + domain, or null when the request throws |
| AsyncWhois.OthersUseWhois | src/Service/AsyncWhoisClient.php:53-85 | every other TLD goes to WHOIS: the HTTP side of the network cannot change its result |
| AsyncWhois.UnknownTldIsNull | src/Service/AsyncWhoisClient.php:58-62 | a TLD outside the supported list gives null, whatever the network does |
| AsyncWhois.WhoisAnswerIsChunks | src/Service/AsyncWhoisClient.php:74-81 | a clean reply's chunks, joined in order, are the result, each at its offset |
| AsyncWhois.Frame404Matches | src/Service/AsyncWhoisClient.php:104 | a 404 frame matches the `dev` available pattern |
| AsyncWhois.DevNotFoundIsAvailable | src/Service/DomainCheckerService.php:15 | checking any `.dev` domain, with any number of labels, whose RDAP request returns 404 gives Available with a null message |
| SyncWhois.WhoisTable | src/Service/WhoisClient.php:56-59 | `getSupportedTlds` is exactly the 12 distinct table keys |
| SyncWhois.LineEnd | src/Service/WhoisClient.php:48 | `fgets($socket, 128)` stops after a line feed, after 127 bytes, or at the end, and always advances |
| SyncWhois.Stream.Gets | src/Service/WhoisClient.php:48 | `fgets` returns the bytes from the position to where the line ends |
| SyncWhois.Query | src/Service/WhoisClient.php:27-54 | returns everything the server sent, or null for an unknown TLD or a failed open; the line sent is the query line; on success the socket is closed |
| SyncWhois.UnknownTldIsNull | src/Service/WhoisClient.php:29-33 | an unknown TLD gives null |
| SyncWhois.FailedOpenIsNull | src/Service/WhoisClient.php:35-39 | a host that cannot be opened gives null |
| SyncWhois.OnlyQueryLineMatters | src/Service/WhoisClient.php:43-49 | the result depends only on the host's answer to the query line |
| Scheduler.EffectiveConcurrency | src/Command/CheckDomainsCommand.php:67-72 | the concurrency is at least 1: a value below 1 becomes 5, and others are kept |
| Scheduler.EffectiveConcurrencyIdempotent | src/Command/CheckDomainsCommand.php:70-72 | clamping twice equals clamping once |
| Scheduler.GroupByTld | src/Command/CheckDomainsCommand.php:327-338 | the grouping loop builds the groups of `Grouped` |
| Scheduler.GroupedStep | src/Command/CheckDomainsCommand.php:331-335 | adding a domain appends it to its key's group, or opens a new group at the end |
| Scheduler.GroupedOk | src/Command/CheckDomainsCommand.php:327-338 | groups are non-empty, have distinct keys, and each group's domains have its key |
| Scheduler.EachDomainInOneGroup | src/Command/CheckDomainsCommand.php:333-334 | an input domain is in a group exactly when the group's key is the domain's key |
| Scheduler.GroupedGroupOf | src/Command/CheckDomainsCommand.php:334 | each group holds the input's domains with its key, in input order |
| Scheduler.KeysDistinct | src/Command/CheckDomainsCommand.php:334 | the group keys appear once each, in order of first appearance |
| Scheduler.GroupSizes | src/Command/CheckDomainsCommand.php:327-338 | the group sizes sum to the number of input domains |
| Scheduler.RoundShape | src/Command/CheckDomainsCommand.php:136-147 | a round takes the front domain of the first min(c, groups) groups, the rest keeps every other domain, and no empty group is kept |
| Scheduler.RoundDistinct | src/Command/CheckDomainsCommand.php:136-147 | no two domains of a batch share a TLD key |
| Scheduler.RoundGroupOf | src/Command/CheckDomainsCommand.php:141 | per key, the domains taken followed by what the group keeps equal the group before the round: front-first order |
| Scheduler.TakeRound | src/Command/CheckDomainsCommand.php:133-147 | the `foreach` with `array_shift` and `unset` computes the round |
| Scheduler.CheckBatch | src/Command/CheckDomainsCommand.php:150-160 | a batch's results are `check` applied to each of its domains |
| Scheduler.ScheduleBatches | src/Command/CheckDomainsCommand.php:132-147 | every batch holds between 1 and `concurrency` domains, no two with the same key |
| Scheduler.DistinctTldsDistinct | src/Command/CheckDomainsCommand.php:151-152 | so a batch's domains are pairwise different and the `$futures` keys never collide |
| Scheduler.ScheduleGroupOf | src/Command/CheckDomainsCommand.php:141 | per key, the dispatched domains are that group's, in order |
| Scheduler.ScheduleLength | src/Command/CheckDomainsCommand.php:132-166 | all domains are dispatched, there are no more rounds than domains, and there are none exactly when there are no groups |
| Scheduler.ScheduleStep | src/Command/CheckDomainsCommand.php:132-166 | each round strictly shrinks the remaining work, so the loop terminates |
| Scheduler.DispatchKeepsInput | src/Command/CheckDomainsCommand.php:129-166 | the dispatched domains are the input, with multiplicity, and input order is kept within each TLD |
| Scheduler.RunDomainCheck | src/Command/CheckDomainsCommand.php:129-166 | the loop dispatches the schedule's batches, collects `check` of each domain, and pauses between rounds only: one fewer time than there are rounds |
| Scheduler.OneResultPerDomain | src/Command/CheckDomainsCommand.php:155-160 | the results' domains are the input domains, each as often |
| Scheduler.Checked | src/Command/CheckDomainsCommand.php:152-158 | one result per domain, about that domain |
| Report.CountsCoverAll | src/Command/CheckDomainsCommand.php:273-277 | each result is counted under exactly one status |
| Report.TldCellDash | src/Command/CheckDomainsCommand.php:281 | the TLD cell is "-" exactly for a null, empty or "0" TLD, and "." + TLD otherwise |
| Report.ErrorTextCarriesMessage | src/Command/CheckDomainsCommand.php:267-271 | an error row's status text carries the result's message |
| Report.OutputTable | src/Command/CheckDomainsCommand.php:257-294 | one row per result, each counter is the number of results with its status, and the three sum to the number of results |
| Report.TalliesCoverInput | src/Command/CheckDomainsCommand.php:262-277 | after the rounds, the tallies sum to the number of domains read |
| Report.OutputCsv | src/Command/CheckDomainsCommand.php:296-309 | the header line, then one line per result in order |
| Report.CsvHeaderFields | src/Command/CheckDomainsCommand.php:298 | the header names the four columns domain, tld, status, error |
| Report.CsvLineFields | src/Command/CheckDomainsCommand.php:301-307 | without commas in the fields, a line splits into domain, TLD, status value and message, with null rendered empty |
| Report.CsvLineDetermines | src/Command/CheckDomainsCommand.php:301-307 | such a line determines the domain, the status and both rendered fields |
| CsvReader.DeadStays | src/Service/CsvReaderService.php:56 | once the recogniser fails, no further input revives it |
| CsvReader.TldZone | src/Service/CsvReaderService.php:56 | after a label, the recogniser accepts the rest exactly when it is `.` + letters blocks of at least two letters |
| CsvReader.LabelZone | src/Service/CsvReaderService.php:56 | from inside the first label, acceptance is the label-then-TLDs shape |
| CsvReader.AcceptsShape | src/Service/CsvReaderService.php:56 | the recogniser accepts exactly the strings whose dot-split is an alphanumeric first label with inner hyphens only, then one or more all-letter parts of length at least 2 |
| CsvReader.ValidityIgnoresCase | src/Service/CsvReaderService.php:56 | `isValidDomain` of the lower-cased string equals `isValidDomain` of the string |
| CsvReader.FinalNewlinePasses | src/Service/CsvReaderService.php:56 | `$` without the D modifier also accepts a valid name followed by one final line feed |
| CsvReader.TrimmedValidity | src/Service/CsvReaderService.php:42-43 | on a trimmed cell, `isValidDomain` is exactly the domain shape |
| CsvReader.HeaderCells | src/Service/CsvReaderService.php:30 | the header has one trimmed, lower-cased cell per cell of the first row |
| CsvReader.Find | src/Service/CsvReaderService.php:31 | `array_search` strict: None iff absent, else the first index holding the key |
| CsvReader.Entry | src/Service/CsvReaderService.php:41-46 | a data row contributes at most one domain |
| CsvReader.CollectedPrefix | src/Service/CsvReaderService.php:28-46 | the loop only appends: the domains gathered from the first rows are a prefix of those gathered from more rows |
| CsvReader.CsvHandle.ReadRow | src/Service/CsvReaderService.php:28 | `fgetcsv` returns the next row, advancing by one, and false at the end |
| CsvReader.AddDomain | src/Service/CsvReaderService.php:41-46 | the body for one data row appends its entry |
| CsvReader.ReadDomains | src/Service/CsvReaderService.php:13-52 | returns `Domains`: "File not found", "Cannot open file", the missing-column error, or the domains; a handle exists iff the file opened, and it is closed on every path |
| CsvReader.FailsExactly | src/Service/CsvReaderService.php:15-36 | reading fails exactly for a missing file, an unopenable one, or a first row without a "domain" cell |
| CsvReader.CollectedCount | src/Service/CsvReaderService.php:38-46 | there are fewer domains than rows, since the header row gives none |
| CsvReader.CollectedFrom | src/Service/CsvReaderService.php:41-46 | each domain comes from a data row whose cell in the domain column gives it |
| CsvReader.CollectedHold | src/Service/CsvReaderService.php:41-46 | each data row whose cell gives a domain contributes it |
| CsvReader.CollectedShape | src/Service/CsvReaderService.php:42-44 | every domain collected is lower-case, passes `isValidDomain` and has the domain shape |
| CsvReader.ReadDomainsContract | src/Service/CsvReaderService.php:28-51 | no rows give no domains; there are fewer domains than rows; each is valid and lower-case; a string is a domain iff some data row's cell gives it |

## Left out

- Network I/O is not modelled. Connecting, writing, reading, HTTP requests, `fsockopen`, and
  connect and transfer timeouts become the `Network` oracle. A timeout is one of its failures.
- Amp `async`/`await` concurrency is not modelled. A round is "check every domain of the
  batch", with results in batch order. This is one admissible completion order; the
  program collects results in whatever order `await` yields them.
- `usleep` is not performed: the pauses are counted in `delays`.
- The progress bar, the titles and text lines, `SymfonyStyle` and `Table` rendering, and the
  summary lines after the table are not modelled. The table is modelled as its rows and the
  three counters.
- Watch mode (`runWatchLoop`) is not modelled: it is file-time polling, raw stdin, `stty` and
  shell calls.
- `outputJson` is not modelled, because it depends on `json_encode`.
- `execute`'s option reading and the "no valid domains" warning are not modelled. The CSV
  read failure path is the `Failure` of `CsvReader.Domains`.
- Option parsing is not modelled: `EffectiveConcurrency` starts from the integer that
  `(int)` produced.
- PCRE in general is not modelled. Only the fixed patterns of the two tables are modelled,
  as predicates. The `isValidDomain` regular expression is a hand-written recogniser.
- `fgetcsv`'s quoting, escaping and blank-line rules are not modelled. Rows arrive already
  split, and a blank line's `[null]` row is not distinguished from a row whose cell is empty.
- Opening a file is not modelled: it is reduced to the three cases of `CsvFile`.
- PHP's conversion of numeric-string array keys to integers in `$domainsByTld` is not
  modelled. It would not change the grouping, because the keys stay distinct.
- `stream_set_timeout` on the synchronous socket is not modelled. The stream ends when the
  server's data is exhausted.
- The registered fixtures of the test file are not restated literally. They are covered by
  the `…WithoutLetterRegistered` lemmas, which hold for every response missing a letter
  that each available alternative needs; each fixture lacks that letter.

## Findings

| source | as written | input that shows it | evidently intended | confidence | as-written member | corrected member |
|---|---|---|---|---|---|---|
| tests/Service/DomainCheckerServiceTest.php:141-144 | the `dev` "available" fixture is a WHOIS text, "No match for \"TEST-AVAILABLE-DOMAIN.DEV\"…", which the test expects to be Available | "test-available-domain.dev" with that response: it holds no 'H', so `/^HTTP_STATUS:404/m` cannot match and `check` returns Registered | `dev` goes through RDAP, so the fixture should be a 404 frame "HTTP_STATUS:404\n…", which is Available | high (by proof; not executed) | CheckerTests.DevWhoisTextIsRegistered | AsyncWhois.DevNotFoundIsAvailable |
