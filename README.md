# unt-scan core, modelled in Dafny

unt-scan.py checks the installed Ubuntu packages against the Ubuntu Security Team's
advisory database (UNTs/USNs). It downloads the database only when needed: it sends a
HEAD request and compares the ETag or Last-Modified header with the previous run's. It
flattens the database into one item per binary package for the host's release. It alerts
on every installed package older than its fixed version. With alert-once on, it alerts
only once per advisory id, remembering the ids in an alert registry file. The exit
status is 1 when at least one alert was printed.

The model has five modules:

- `Wrappers` (wrappers.dfy): `Option` and `Result`.
- `Registry` (registry.dfy): class `AlertRegistry`, with the id list `registry` (a
  `seq<string>` updated in place) and the storage file's contents `stored`.
- `FeedCache` (feed_cache.dfy): the loop that turns the HEAD header list into a
  dictionary (a repeated name keeps its last value), and the ETag / Last-Modified decision
  as a pure predicate. Class `FeedCache` holds the two files, the header metadata and the
  cached body; its method `DatabaseFile` is the whole conditional fetch. Replies to HEAD and
  GET are parameters.
- `Advisories` (advisories.dfy): the database schema and `filter_db` as pure functions.
- `Scanner` (scanner.dfy): the alert loop as a method, proved against a recursive
  specification function `Alerts`. Also the alert-once/storage check and the exit status.

Representation choices:

- A Python dict that the code iterates over (the database, a release's `binaries`) is a
  sequence of (key, value) pairs in iteration order, because the order of the output
  follows it. `releases` is only looked up, so it is a `map`.
- Python's `<` on `str` is code-point lexicographic order. Dafny's `<` on sequences means
  "proper prefix", so it is written out as `FeedCache.StrLess`.
- Header names are compared exactly as the server sent them (`"ETag"`,
  `"Last-Modified"`), case-sensitively, since they are plain dict keys.
- The package cache lookup is a function `string -> Option<string>`. It gives the
  installed version, or None when the package is unknown or not installed.
- `apt_pkg.version_compare` is a function `(string, string) -> int`. An item is
  vulnerable when the result is negative.

The code has some behaviour worth knowing, and the model keeps it as written:

- The Last-Modified fallback reuses the cache when the stored value is strictly smaller,
  as a string, than the new one. An unchanged Last-Modified therefore always downloads
  again (`FeedCache.LastModifiedFallback`).
- The metadata file is overwritten with the new HEAD headers before any download. So a
  GET that answers with a status other than 200, or whose connection fails before the
  reply, leaves new validators next to an old body. The next run with the same ETag then
  serves that older body (`FeedCache.StaleBodyAfterFailedGet`).
- The cache file is emptied before the body is read into it, so the write is not atomic.
  A GET that answers 200 but is cut short while its body is read leaves an empty cache
  file next to the new validators. The next run with the same ETag returns that empty
  body, which the database decoding then rejects (`FeedCache.EmptyBodyAfterCutShortGet`).
- Without persistent storage the GET's status code is not checked, and any body is
  returned.
- Nothing in the program turns persistent storage off: it is on by default
  (unt-scan.py:35) and `-d` turns it on (unt-scan.py:244). So the no-storage GET
  (unt-scan.py:92-99) and the alert-once/storage RuntimeError (unt-scan.py:256-257) can
  never run. The `!persistent` branch of `FeedCache.FeedCache.DatabaseFile` and the
  `ConfigRejected` result of `Scanner.Run` model this dead code.

## Model

| member | source | states |
|---|---|---|
| `Registry.AlertRegistry.constructor` | unt-scan.py:56-63 | the registry starts as the file's list; a missing file gives an empty registry, and that empty list is written to the file |
| `Registry.AlertRegistry.Register` | unt-scan.py:65-66 | the id is appended at the end; earlier entries are unchanged; the id is registered afterwards; duplicates are kept |
| `Registry.AlertRegistry.IsRegistered` | unt-scan.py:68-69 | true exactly when the id occurs in the list; changes nothing (no modifies clause) |
| `Registry.AlertRegistry.Save` | unt-scan.py:71-73 | the file afterwards holds the whole current list |
| `Registry.SaveAndReload` | unt-scan.py:56-73 | saving then loading from the written file gives the same list, so exactly the same ids are registered |
| `FeedCache.StrLessIrreflexive` | unt-scan.py:136 | the string order used for Last-Modified never holds between a string and itself |
| `FeedCache.StrLessAsymmetric` | unt-scan.py:136 | the string order never holds in both directions |
| `FeedCache.StrLessTotal` | unt-scan.py:136 | for two different strings, the order holds in one direction |
| `FeedCache.StrLessIsLexicographic` | unt-scan.py:136 | the order is Python's str `<`: a proper prefix is smaller; otherwise the first differing character decides |
| `FeedCache.HeaderMap` | unt-scan.py:113-117 | the loop builds the dictionary obtained by inserting the header pairs first to last |
| `FeedCache.CollectedNames` | unt-scan.py:114-117 | the dictionary's names are exactly the header names in the response |
| `FeedCache.CollectedLastWins` | unt-scan.py:114-117 | a repeated header name maps to the value of its last occurrence |
| `FeedCache.ETagDecides` | unt-scan.py:131-134 | with an ETag on both sides, reuse exactly when the ETags are equal, whatever the Last-Modified values are |
| `FeedCache.LastModifiedFallback` | unt-scan.py:135-137 | without an ETag on both sides, reuse exactly when both sides have Last-Modified and the stored value is strictly smaller; equal values never reuse |
| `FeedCache.NoMetadataDownloads` | unt-scan.py:124-126 | with no stored metadata (empty dictionary) the decision is always to download |
| `FeedCache.FeedCache.DatabaseFile` | unt-scan.py:76-166 | without storage: a GET with no status check, files untouched. Failed HEAD: error, files untouched. Otherwise the metadata becomes the new headers whatever follows. The cached body is returned, unchanged, when the headers allow reuse and a body exists. Otherwise a complete 200 GET replaces and returns the body. A 200 GET cut short while reading leaves an empty body and is an error. Any other GET is an error that keeps the old body. The no-storage branch is unreachable from the command line |
| `FeedCache.RefetchWithUnchangedETag` | unt-scan.py:128-145 | after a successful fetch, a second fetch whose HEAD reply has the same ETag (other headers may differ) yields the same bytes without using its GET reply |
| `FeedCache.StaleBodyAfterFailedGet` | unt-scan.py:120-157 | when the ETag changed and the GET answered non-200 or its connection failed, the next run with that ETag returns the older cached body |
| `FeedCache.EmptyBodyAfterCutShortGet` | unt-scan.py:128-160 | when the ETag changed and a 200 GET was cut short while reading, the next run with that ETag returns an empty body |
| `Advisories.BinaryItemsAt` | unt-scan.py:178-193 | one item per binary, in order, with the advisory id and CVEs, the binary's name and version, and the summary isummary, else summary, else "No summary" |
| `Advisories.AdvisoryItemsCount` | unt-scan.py:174-178 | an advisory whose releases lack the codename yields nothing; otherwise it yields as many items as the release has binaries |
| `Advisories.FilterDbAppend` | unt-scan.py:174-193 | filtering a concatenated database yields the concatenation of the two filtered sequences |
| `Advisories.OtherReleaseContributesNothing` | unt-scan.py:175-176 | removing an advisory that lacks the codename leaves the output unchanged |
| `Advisories.FilterDbSound` | unt-scan.py:169-193 | every output item is a binary of an advisory that names the codename, with that advisory's id, CVEs and summary |
| `Advisories.FilterDbComplete` | unt-scan.py:174-193 | every binary of every advisory naming the codename appears in the output |
| `Scanner.Scan` | unt-scan.py:276-287 | the loop emits the alerts of `Alerts`, and the registry becomes the old list followed by the alerted ids. `issuesFound` is set exactly when some alert was emitted |
| `Scanner.Run` | unt-scan.py:256-297 | alert-once without storage is rejected (unreachable from the command line). Otherwise: filter, load the registry, scan, then save the list with the new ids. The exit status is 1 exactly when some alert was emitted, else 0 |
| `Scanner.AlertsAreVulnerable` | unt-scan.py:277-279 | every alert is for an item whose package is installed in an older version, and reports that installed version |
| `Scanner.ShowAllReportsEveryVulnerable` | unt-scan.py:282-283 | without alert-once, the alerts are exactly one per vulnerable item, whatever the registry holds |
| `Scanner.AlertOnceNeverRepeats` | unt-scan.py:280-281 | with alert-once, no alert for an id registered at the start, and no id alerts twice in one run |
| `Scanner.AlertOnceReportsFirstPackage` | unt-scan.py:276-287 | with alert-once, each alert is for the first vulnerable package of its advisory in scan order; later packages of that advisory are suppressed |
| `Scanner.VulnerableEndsRegistered` | unt-scan.py:276-287 | in either mode, after a scan, the id of every vulnerable item is in the registry |
| `Scanner.AllRegisteredIsSilent` | unt-scan.py:280-285 | with alert-once, nothing alerts when every vulnerable item's id is already registered |
| `Scanner.SecondRunIsSilent` | unt-scan.py:276-294 | a second alert-once run on the same items, with the saved registry, emits nothing |
| `Scanner.AtMostOncePerIdAcrossRuns` | unt-scan.py:274-294 | over two alert-once runs, the second on the first's saved registry, each id alerts at most once, and never one registered before |
| `Scanner.CurlScenario` | unt-scan.py:268-297 | curl 7.58.0-2ubuntu3.6 installed, USN-42-1 fixing it in 3.8 for bionic: the first run alerts once, registers USN-42-1 and exits 1; the second run alerts nothing and exits 0 |

## Left out

- HTTP transport (http.client, TLS, the 10-second timeout): replies to HEAD and GET are parameters. A connection that fails before the reply is the `ConnectionFailed` reply. A body read that fails is the `CutShort` reply.
- Pickle serialisation and file handling: each file is an `Option` value, None when it does not exist or, for the cached body, cannot be opened. A metadata or registry file that exists but cannot be unpickled raises in the source; that case is not modelled.
- Decoding the downloaded bytes into the database (pickle with the iso-8859-1 encoding): `Scanner.Run` takes the decoded database.
- A feed record missing `releases`, `cves`, `binaries` or `version` raises KeyError in the source. The model's record types always have these fields.
- `apt.Cache` and `apt_pkg.version_compare`: foreign library calls, passed in as functions. Debian version ordering is not part of this repository.
- `get_codename` (reads /etc/lsb-release): file I/O; the codename is a parameter.
- `show_age`: date parsing and wall-clock time.
- `show_help`, getopt parsing, `--age`, and the printing of alerts: CLI and output. An alert is the record of the fields that are printed.
- Creating the storage directory, and the error when its path exists but is not a directory: file system I/O.
- An uncaught exception (the alert-once/storage RuntimeError, a failed fetch) ends the interpreter with status 1. The model reports these as `ConfigRejected` and `Failure` values, not as exit statuses.
