# wis2downloader in Dafny

A verified model of the core of wis2downloader. The service subscribes to WIS2 topics on an MQTT broker and turns every
data notification into a download job. Worker threads take the jobs off an in-memory queue and save each
file under `<download dir>/<yyyy>/<mm>/<dd>/<target>/<filename>`.

The model covers the following:

- **Subscriber** (`src/subscriber.dfy`). The MQTT subscriber's subscription table, in dictionary
  insertion order, and the operations that change it. Message resolution: an exact key first, then the
  first matching glob pattern, then the `$TOPIC` placeholder, then the rewriting of the target through
  `pathlib`. Building the job and putting it on the queue. Broker calls are a ghost log.
- **Glob, paths, strings** (`src/glob.dfy`, `src/posix_path.dfy`, `src/strings.dfy`). The
  library behaviour those steps rely on:
  - `fnmatch` with `*` and `?`;
  - `PurePosixPath` parsing, joining, `str()` and `.parent`;
  - `str.split` / `str.join`;
  - regex search and deletion for a one-character class.
- **Queues** (`src/job_queue.dfy`, `src/legacy_queue.dfy`). The two `SimpleQueue` wrappers around
  Python's `queue.Queue`, with its count of unfinished tasks.
- **Download worker** (`src/downloader.dfy`). `process_job` is a sequence of gates:
  1. date partition;
  2. hash information;
  3. link choice;
  4. filename from `urlsplit`;
  5. `mkdir`;
  6. deduplication;
  7. transfer;
  8. hash verification;
  9. write.

  `start` is the loop that ends on the shutdown flag, on a shutdown sentinel, or when a job raises.
  The filesystem is a class over a map of files and a set of directories (`src/storage.dfy`). The hash
  check uses RFC 4648 section 4 Base64 (`src/base64.dfy`). The URL path comes from CPython's
  `urlsplit` (`src/url_split.dfy`).
- **Application** (`src/app.dfy`). The topic blacklist `validate_topic`, the target cleaner
  `clean_target`, the loop that installs the configured default subscriptions, and the shutdown loop
  that sends sentinels to workers blocked on an empty queue.
- **Target whitelist** (`src/validate_target.dfy`). `validate_target` and its `$TOPIC` escape.

The clock, the HTTP GET, the digest functions and the shutdown event are parameters of the model:

- a date per job;
- the response body per request, or None when the request raises;
- a function from algorithm and bytes to digest;
- the flag value per loop iteration.

Behaviour of the code worth knowing, which the model reproduces:

- **Link choice.** `get_download_link` takes the first link whose `rel` is `update` or `canonical`. A
  canonical link listed before an update link wins (`Downloader.DownloadLinkFirstEligible`).
- **HTTP errors.** urllib3 returns a response for every HTTP status. A 404 or 500 body is hashed and,
  when the notification carries no usable hash, saved like any other body.
- **Exceptions end the worker.** `start` has no `try`. An exception from `process_job` ends the worker
  loop; the outcome is `Crashed`. Examples are `mkdir` over an existing file and `urlsplit` rejecting
  an unmatched IPv6 bracket. Such a job is not marked done.
- **No size or storage checks.** There is no size limit, no free-space check and no temporary file.
  `write_bytes` replaces the target directly.
- **The date is the processing date.** The date partition is the date when the job is processed, not
  a date taken from the notification.
- **Wildcards cross levels.** A subscription pattern is the topic with `+` and `#` replaced by `*`,
  and `fnmatch`'s `*` crosses `/`. So `a/+` claims `a/x/y`, although MQTT's `+` matches one level
  (`Subscriber.StarCrossesLevels`).
- **`_` is treated inconsistently.** `clean_target` deletes `_`, which `validate_target` accepts. It
  also deletes the `$` of `$TOPIC`, so a default subscription configured with `$TOPIC` saves under
  the literal directory `TOPIC` (`App.CleanTargetDropsPlaceholder`).
- **Mixed separators can make the target absolute.** The `/` rewrite keeps `a\/b` as it is. The `\`
  rewrite then splits it into `a` and `/b`, and pathlib lets the rooted `/b` replace what precedes it.
  The result is `/b`, and joined onto the download directory it discards that directory
  (`Subscriber.MixedSeparatorsRoot`). A `$TOPIC` target whose topic mixes the two separators does
  the same.
- **No match raises.** A message that matches no subscription leaves the target `None`, and the
  handler raises at `"/" in target`. No job is enqueued (`Subscriber.MqttSubscriber.OnMessage`).

## Model

| member | source | states |
|---|---|---|
| Subscriber.WildcardPattern | wis2downloader/subscriber/__init__.py:142 | the pattern has the topic's length and maps each `+` and `#` to `*`, every other character to itself |
| Subscriber.PatternOfPlainTopic | wis2downloader/subscriber/__init__.py:142 | a topic without wildcards is its own pattern |
| Subscriber.PatternGlobSafe | wis2downloader/subscriber/__init__.py:142 | the pattern has no `[` exactly when the topic has none |
| Subscriber.TopicMatchesOwnPattern | wis2downloader/subscriber/__init__.py:104-110 | a topic always matches the pattern stored for it |
| Subscriber.Remove | wis2downloader/subscriber/__init__.py:150 | deleting a key leaves every other key and only those |
| Subscriber.RemoveAt | wis2downloader/subscriber/__init__.py:150 | in a duplicate-free order, deleting a key removes exactly its position and keeps the rest in order |
| Subscriber.RemoveAbsent | wis2downloader/subscriber/__init__.py:152-153 | deleting an absent key changes nothing |
| Subscriber.RemoveKeepsInvariant | wis2downloader/subscriber/__init__.py:148-150 | deleting a subscribed key from both the order and the table keeps the order duplicate-free and in step with the table |
| Subscriber.FirstMatchIsEarliest | wis2downloader/subscriber/__init__.py:107-110 | the scan returns the target of the earliest subscription whose pattern matches |
| Subscriber.FirstMatchNone | wis2downloader/subscriber/__init__.py:107-110 | the scan finds nothing exactly when no pattern matches |
| Subscriber.ResolveNoneIff | wis2downloader/subscriber/__init__.py:104-110 | no target exactly when the topic is not a key and matches no pattern; no job target exactly then |
| Subscriber.ResolveChoosesEarliest | wis2downloader/subscriber/__init__.py:104-110 | an exact key wins; otherwise the earliest matching subscription in insertion order wins |
| Subscriber.NormalizedHasNoBackslash | wis2downloader/subscriber/__init__.py:119-121 | the rewritten target never contains a backslash |
| Subscriber.NormalizeSingleSeparator | wis2downloader/subscriber/__init__.py:115-121 | a target with no separator is unchanged; one with only `/` (only `\`) is split there and rendered by pathlib |
| Subscriber.NormalizeKeepsCleanPath | wis2downloader/subscriber/__init__.py:115-117 | a `/`-joined path of ordinary names comes out of the rewrite unchanged |
| Subscriber.MixedSeparatorsRoot | wis2downloader/subscriber/__init__.py:115-121 | for names `a` and `b`, the target `a\/b` is rewritten to the absolute path `/b` |
| Subscriber.SlashPassKeeps | wis2downloader/subscriber/__init__.py:115-117 | the `/` rewrite leaves `x/y` unchanged for names `x` and `y` |
| Subscriber.RootedLast | wis2downloader/subscriber/__init__.py:120-121 | `Path(a, "/b")` is the rooted path `/b` |
| Subscriber.ExampleWildcardPattern | wis2downloader/subscriber/__init__.py:142 | `a/+/c/#` gets the pattern `a/*/c/*` |
| Subscriber.ExamplePatternMatches | wis2downloader/subscriber/__init__.py:108 | `a/*/c/*` matches `a/x/c/d/e` |
| Subscriber.ExampleMiddleMatches | wis2downloader/subscriber/__init__.py:108 | `*/c/*` matches `x/c/d/e` |
| Subscriber.ExampleTailMatches | wis2downloader/subscriber/__init__.py:108 | `/c/*` matches `/c/d/e` |
| Subscriber.ExamplePatternRejects | wis2downloader/subscriber/__init__.py:108 | `a/*/c/*` does not match `a/x/y/c` |
| Subscriber.TailRejects | wis2downloader/subscriber/__init__.py:108 | `/c/*` rejects every name that does not begin with `/c/` |
| Subscriber.WildcardExample | wis2downloader/subscriber/__init__.py:104-110 | a `a/+/c/#` subscription claims `a/x/c/d/e` and not `a/x/y/c` |
| Subscriber.SingleSubscription | wis2downloader/subscriber/__init__.py:104-110 | with one subscription, a topic other than its key resolves to its target exactly when the pattern matches |
| Subscriber.StarCrossesLevels | wis2downloader/subscriber/__init__.py:108 | the pattern of `a/+` matches `a/x/y`, two levels below `a` |
| Subscriber.MqttSubscriber.constructor | wis2downloader/subscriber/__init__.py:80 | a new subscriber has no subscriptions and has made no broker call |
| Subscriber.MqttSubscriber.AddSubscription | wis2downloader/subscriber/__init__.py:138-145 | subscribes, stores `{target, pattern}` under the topic, keeps an existing key's position and appends a new one, keeps the table invariant, returns the new listing |
| Subscriber.MqttSubscriber.DeleteSubscription | wis2downloader/subscriber/__init__.py:147-154 | a present topic is unsubscribed and removed from table and order; an absent one changes nothing and makes no broker call |
| Subscriber.MqttSubscriber.ListSubscriptions | wis2downloader/subscriber/__init__.py:156-157 | the listing is every entry, in insertion order |
| Subscriber.MqttSubscriber.ResolveTarget | wis2downloader/subscriber/__init__.py:104-110 | the loop returns the exact-key target or the first pattern match in insertion order |
| Subscriber.MqttSubscriber.OnMessage | wis2downloader/subscriber/__init__.py:99-128 | a set shutdown flag logs a disconnect; the message is still resolved; a resolved target gets `$TOPIC` substituted and separators rewritten, and exactly one job is appended to the queue; with no target nothing is enqueued; the table is unchanged |
| Glob.LiteralPatternMatchesOnlyItself | wis2downloader/subscriber/__init__.py:108 | a pattern without `*` or `?` matches exactly itself |
| Glob.StarMatchesEverything | wis2downloader/subscriber/__init__.py:108 | `*` matches every name, `/` included |
| Glob.PointwiseMatch | wis2downloader/subscriber/__init__.py:108 | a pattern matches a name of its length whose characters agree except where the pattern has `?` |
| Glob.LiteralPrefix | wis2downloader/subscriber/__init__.py:108 | a literal prefix must appear at the start of the name and the rest must match the remainder |
| Glob.LeadingStar | wis2downloader/subscriber/__init__.py:108 | a leading `*` matches when the rest matches some suffix of the name |
| Glob.MatchConcat | wis2downloader/subscriber/__init__.py:108 | matches of two patterns combine into a match of their concatenation |
| Strings.Split | wis2downloader/subscriber/__init__.py:116 | at least one piece, none containing the separator |
| Strings.JoinSplit | wis2downloader/subscriber/__init__.py:116 | joining the pieces of a split gives the string back |
| Strings.SplitJoin | wis2downloader/subscriber/__init__.py:116 | splitting a join of separator-free pieces gives the pieces back |
| Strings.SplitFree | wis2downloader/subscriber/__init__.py:115-116 | a string without the separator splits into itself |
| Strings.SplitAtSeparator | wis2downloader/subscriber/__init__.py:116 | splitting at the first separator gives the head and the split of the rest |
| Strings.SplitTwo | wis2downloader/subscriber/__init__.py:116 | two separator-free pieces joined by the separator split back into those two |
| Strings.JoinTwo | wis2downloader/subscriber/__init__.py:117 | joining two pieces puts one separator between them |
| Strings.JoinAvoids | wis2downloader/subscriber/__init__.py:117 | a join of pieces without a character has none of it |
| Strings.ReplaceChar | wis2downloader/subscriber/__init__.py:142 | each character equal to `from` becomes `to`, every other is kept |
| Strings.FindFirst | wis2downloader/app.py:33 | None exactly when no character is in the class; otherwise the first index whose character is |
| Strings.RemoveAll | wis2downloader/app.py:60 | the result has no character of the class and is no longer than the input |
| Strings.RemoveAllAppend | wis2downloader/app.py:60 | deletion distributes over concatenation |
| Strings.RemoveAllNothing | wis2downloader/app.py:55-62 | a string with no character of the class is unchanged |
| Strings.RemoveAllCounts | wis2downloader/app.py:60 | each character outside the class keeps its count; those in it have none left |
| PosixPath.Keep | wis2downloader/subscriber/__init__.py:117 | only real components survive, each taken from the input |
| PosixPath.Parse | wis2downloader/downloader/__init__.py:72 | every parsed path is well formed |
| PosixPath.ParseRooted | wis2downloader/subscriber/__init__.py:120-121 | `/name` parses to the path rooted at `/` with the single component `name` |
| PosixPath.Parent | wis2downloader/downloader/__init__.py:108 | the parent of a well-formed path is well formed |
| PosixPath.KeepComponents | wis2downloader/subscriber/__init__.py:117 | a list of real components is kept whole |
| PosixPath.ComponentsOfJoin | wis2downloader/subscriber/__init__.py:116-117 | the components of a `/`-joined list of names are the names |
| PosixPath.JoinStartsWithFirst | wis2downloader/subscriber/__init__.py:117 | a join begins with the first character of its first piece |
| PosixPath.ParseRender | wis2downloader/subscriber/__init__.py:117 | parsing the string of a well-formed path gives the path back |
| PosixPath.ParseRenderRelative | wis2downloader/subscriber/__init__.py:117 | the same for a relative path |
| PosixPath.ParseRenderRooted | wis2downloader/subscriber/__init__.py:117 | the same for a path rooted at `/` |
| PosixPath.ParseRenderDoubleRooted | wis2downloader/subscriber/__init__.py:117 | the same for a path rooted at `//` |
| PosixPath.SplitAvoids | wis2downloader/subscriber/__init__.py:116 | pieces of a string without a character lack it too |
| PosixPath.ParseAvoids | wis2downloader/downloader/__init__.py:91 | a path parsed from a string without a character has no component containing it |
| PosixPath.FromPartsAvoids | wis2downloader/subscriber/__init__.py:117 | `Path(*parts)` of parts without a character has no component containing it |
| PosixPath.RenderAvoids | wis2downloader/subscriber/__init__.py:117 | the string of such a path lacks the character too (other than `/` and `.`) |
| PosixPath.FromPartsRelative | wis2downloader/subscriber/__init__.py:117 | `Path(*parts)` of slash-free parts is relative, with the empty and `.` parts dropped |
| PosixPath.FromPartsLast | wis2downloader/subscriber/__init__.py:117 | `Path(*parts)` joins the last part onto the path of the others |
| PosixPath.JoinFreeSegment | wis2downloader/subscriber/__init__.py:117 | joining a slash-free part appends it when it is a real component |
| PosixPath.KeepAppend | wis2downloader/subscriber/__init__.py:117 | dropping empty and `.` parts distributes over concatenation |
| JobQueue.SimpleQueue.constructor | wis2downloader/queue/__init__.py:58-60 | a new queue is empty, active, and has no unfinished task |
| JobQueue.SimpleQueue.Enqueue | wis2downloader/queue/__init__.py:62-65 | the item is appended at the back and counted as unfinished |
| JobQueue.SimpleQueue.Dequeue | wis2downloader/queue/__init__.py:67-70 | the front item is returned and removed; the rest is kept in order |
| JobQueue.SimpleQueue.Size | wis2downloader/queue/__init__.py:72-73 | the number of queued items |
| JobQueue.SimpleQueue.TaskDone | wis2downloader/queue/__init__.py:75-76 | one unfinished task is marked done; `ok` is false exactly where `queue.Queue` raises |
| JobQueue.SimpleQueue.IsEmpty | wis2downloader/queue/__init__.py:78-79 | true exactly when nothing is queued |
| JobQueue.SimpleQueue.ToggleActive | wis2downloader/queue/__init__.py:81-82 | the active flag is flipped and nothing else changes |
| JobQueue.SimpleQueue.IsActive | wis2downloader/queue/__init__.py:84-85 | the active flag |
| LegacyQueue.SimpleQueue.constructor | queuer/__init__.py:34-35 | a new queue is empty |
| LegacyQueue.SimpleQueue.Enqueue | queuer/__init__.py:37-38 | the item is appended at the back |
| LegacyQueue.SimpleQueue.Dequeue | queuer/__init__.py:40-41 | the front item is returned and removed |
| LegacyQueue.SimpleQueue.Size | queuer/__init__.py:43-44 | the number of queued items |
| LegacyQueue.SimpleQueue.TaskDone | queuer/__init__.py:46-47 | one unfinished task is marked done; `ok` is false exactly where `queue.Queue` raises |
| LegacyQueue.SimpleQueue.IsEmpty | queuer/__init__.py:49-50 | true exactly when nothing is queued |
| LegacyQueue.FifoOrder | queuer/__init__.py:37-41 | items come out in the order they went in |
| Base64.CharOf | wis2downloader/downloader/__init__.py:179 | no alphabet character is the padding `=` |
| Base64.Encode | wis2downloader/downloader/__init__.py:179 | the encoding has 4 characters per started group of 3 bytes |
| Base64.ValueOfCharOf | wis2downloader/downloader/__init__.py:179 | the alphabet is decoded back to its 6-bit value |
| Base64.GroupRoundTrip | wis2downloader/downloader/__init__.py:179 | three bytes split into four sextets recombine to the same bytes |
| Base64.DecodeEncode | wis2downloader/downloader/__init__.py:179 | decoding an encoding gives the bytes back |
| Base64.DecodeEncodeGroup | wis2downloader/downloader/__init__.py:179 | a full group of three bytes decodes back when the rest does |
| Base64.EncodeInjective | wis2downloader/downloader/__init__.py:179-180 | two byte strings encode alike exactly when they are equal |
| Base64.EncodeAlphabet | wis2downloader/downloader/__init__.py:179 | every encoded character is in the alphabet or is padding |
| UrlSplit.StripLeading | wis2downloader/downloader/__init__.py:172 | a suffix of the input that starts with no control character or space, and only such characters were removed |
| UrlSplit.RemoveUnsafe | wis2downloader/downloader/__init__.py:172 | no tab, carriage return or line feed is left; a URL without them is unchanged |
| UrlSplit.PathPart | wis2downloader/downloader/__init__.py:172 | a prefix without `?` or `#` that is the whole string or stops at a `?` or `#`: the text up to the first of them |
| UrlSplit.PathPartUnique | wis2downloader/downloader/__init__.py:172 | any prefix with those properties is the path part, so they determine it |
| UrlSplit.Basename | wis2downloader/downloader/__init__.py:173 | a suffix of the path without `/`, preceded by `/` when shorter than the path |
| UrlSplit.ExtractFilename | wis2downloader/downloader/__init__.py:168-173 | None exactly for a missing link; a filename never contains `/` |
| UrlSplit.BasenameOfJoin | wis2downloader/downloader/__init__.py:173 | the basename of `dir/name` is `name` |
| UrlSplit.StandardLinkFilename | wis2downloader/downloader/__init__.py:168-173 | `scheme://host/dir/name?query#fragment` gives `name`, the empty name for a trailing `/` |
| UrlSplit.SplitStandardLink | wis2downloader/downloader/__init__.py:172 | the path of `scheme://host/path?query#fragment` is `path` |
| UrlSplit.SplitAfterLetters | wis2downloader/downloader/__init__.py:172 | after a letters-only scheme and no unsafe character, only the text following `:` is split |
| UrlSplit.UnmatchedBracketInvalid | wis2downloader/downloader/__init__.py:172 | a host with `[` and no `]` makes `urlsplit` raise |
| Storage.Ancestry | wis2downloader/downloader/__init__.py:108 | the path and each of its ancestors below the root |
| Storage.MkdirResult | wis2downloader/downloader/__init__.py:108 | raises exactly when the path or an ancestor is a file; otherwise all of them become directories and files are untouched |
| Storage.WriteResult | wis2downloader/downloader/__init__.py:184-194 | a writable path gets exactly the data; otherwise the error is caught and nothing changes |
| Storage.MakeDirsConsistent | wis2downloader/downloader/__init__.py:108 | creating directories keeps the filesystem consistent |
| Storage.WriteBytesConsistent | wis2downloader/downloader/__init__.py:186 | writing keeps the filesystem consistent |
| Storage.MakeDirsIdempotent | wis2downloader/downloader/__init__.py:108 | `exist_ok=True`: a second `mkdir` changes nothing |
| Storage.FileSystem.MakeDirs | wis2downloader/downloader/__init__.py:108 | the new state is the one `MkdirResult` describes; failure changes nothing |
| Storage.FileSystem.IsFile | wis2downloader/downloader/__init__.py:111 | true exactly for a regular file |
| Storage.FileSystem.WriteBytes | wis2downloader/downloader/__init__.py:184-194 | the new state is the one `WriteResult` describes; `ok` reports whether the write went through |
| Downloader.Pow10 | wis2downloader/downloader/__init__.py:62-64 | a positive power of ten |
| Downloader.DigitChar | wis2downloader/downloader/__init__.py:62-64 | a decimal digit |
| Downloader.ZeroPad | wis2downloader/downloader/__init__.py:62-64 | exactly `width` decimal digits |
| Downloader.ZeroPadValue | wis2downloader/downloader/__init__.py:62-64 | the padded digits read back as the number |
| Downloader.TodaysDateDigits | wis2downloader/downloader/__init__.py:57-65 | year, month and day have 4, 2 and 2 digits and read back as the date |
| Downloader.HashFunctionByNameSound | wis2downloader/downloader/__init__.py:147-149 | each algorithm is found under its own name and no other |
| Downloader.ValidateHashDecodes | wis2downloader/downloader/__init__.py:175-182 | with a hash and an algorithm, data is accepted exactly when the hash is the Base64 of its digest |
| Downloader.ValidateHashSameDigest | wis2downloader/downloader/__init__.py:175-182 | two payloads accepted against one hash have the same digest |
| Downloader.ValidateHashUnchecked | wis2downloader/downloader/__init__.py:142-151 | a missing hash or method, or an unknown method, accepts every payload |
| Downloader.DownloadLink | wis2downloader/downloader/__init__.py:153-166 | `update` is reported only when some link has rel `update` |
| Downloader.DownloadLinkFirstEligible | wis2downloader/downloader/__init__.py:153-166 | the first update-or-canonical link decides the URL, and `update` is whether it is an update link |
| Downloader.DownloadLinkNone | wis2downloader/downloader/__init__.py:153-166 | no such link: no URL and no update |
| Downloader.NoLinkNoEffect | wis2downloader/downloader/__init__.py:97-104 | a job without a usable link creates nothing and makes no request |
| Downloader.SaveFiles | wis2downloader/downloader/__init__.py:108-140 | after the filename, only a saved outcome changes a file, the target, to the verified body |
| Downloader.ProcessJobFiles | wis2downloader/downloader/__init__.py:86-140 | only a saved job changes a file, its target, which then holds the verified response body |
| Downloader.SaveSkip | wis2downloader/downloader/__init__.py:111-113 | an existing file with no update is skipped whatever the response |
| Downloader.DedupSkip | wis2downloader/downloader/__init__.py:106-113 | an existing target with a non-update link is skipped before any request, with no file changed |
| Downloader.SaveUpdate | wis2downloader/downloader/__init__.py:111-140 | an update over an existing file replaces it with an accepted body |
| Downloader.UpdateOverwrites | wis2downloader/downloader/__init__.py:106-140 | an update link is fetched even when the file exists, and an accepted body replaces it |
| Downloader.SaveRepeated | wis2downloader/downloader/__init__.py:111-113 | once saved, the same non-update save is skipped and changes nothing |
| Downloader.RepeatedJobSkipped | wis2downloader/downloader/__init__.py:106-113 | a repeated non-update job on the same day is skipped whatever the new response |
| Downloader.ParentAncestryExcludes | wis2downloader/downloader/__init__.py:106-108 | `mkdir` of the parent never creates the target itself |
| Downloader.SaveConsistent | wis2downloader/downloader/__init__.py:108-140 | the save steps keep the filesystem consistent |
| Downloader.ProcessJobConsistent | wis2downloader/downloader/__init__.py:86-140 | a job keeps the filesystem consistent whatever it does |
| Downloader.Run | wis2downloader/downloader/__init__.py:74-84 | the loop stops on the flag, at a sentinel, at a job that raises, or blocked once the queued jobs run out with the flag clear; every job before the stop was a download processed with the flag clear |
| Downloader.RunAfter | wis2downloader/downloader/__init__.py:82-84 | after a processed job the same holds: a crash ends the loop there, otherwise it goes on with the next job |
| Downloader.RunFlagSet | wis2downloader/downloader/__init__.py:76 | a set flag ends the loop before taking a job, with nothing changed |
| Downloader.RunSentinel | wis2downloader/downloader/__init__.py:78-80 | a sentinel ends the loop where it is taken, with nothing changed |
| Downloader.RunStep | wis2downloader/downloader/__init__.py:82-84 | a job that raises ends the loop with the filesystem it left; any other continues from that filesystem |
| Downloader.RunNeverBlocks | wis2downloader/downloader/__init__.py:74-84 | when the flag is set or a sentinel is queued within the jobs, the loop never waits on an empty queue |
| Downloader.RunStopsAtFirstSentinel | wis2downloader/downloader/__init__.py:76-84 | with the flag clear and no crash, the loop stops at the first sentinel after completing every job before it |
| Downloader.RunKeepsConsistent | wis2downloader/downloader/__init__.py:74-84 | the loop keeps the filesystem consistent and removes no file or directory |
| Downloader.DownloadWorker.constructor | wis2downloader/downloader/__init__.py:69-72 | the worker keeps its queue and the parsed base path |
| Downloader.DownloadWorker.ProcessJob | wis2downloader/downloader/__init__.py:86-140 | the outcome and the new filesystem are those of the gate sequence, and the filesystem stays consistent |
| Downloader.DownloadWorker.Save | wis2downloader/downloader/__init__.py:106-140 | `mkdir`, deduplication, transfer, verification and write in order; the outcome and new filesystem are those `SaveSpec` gives |
| Downloader.DownloadWorker.Start | wis2downloader/downloader/__init__.py:74-84 | the end, the jobs taken and marked done, and the filesystem are those of the loop function; the queue keeps the jobs after the stop |
| App.ValidateTopic | wis2downloader/app.py:17-39 | true exactly when no character is in the blacklist class, a backslash, `\n`, `\t` or `\r` |
| App.WildcardTopicValid | wis2downloader/app.py:29-37 | `+`, `#`, `/`, `.`, `-`, letters and digits are accepted |
| App.WildcardTopicExample | wis2downloader/app.py:29-37 | `wis2/+/data/#` is valid |
| App.UnderscoreTopicExample | wis2downloader/app.py:29-37 | `my_centre/#` is not |
| App.CleanTarget | wis2downloader/app.py:42-62 | the result has no special character; a target without one is returned unchanged |
| App.CleanTargetIsDeletion | wis2downloader/app.py:53-62 | on both branches the result is the input with exactly the special characters deleted |
| App.CleanTargetAppend | wis2downloader/app.py:60 | cleaning a concatenation cleans each piece, so kept characters stay in order |
| App.CleanTargetCounts | wis2downloader/app.py:60 | each other character keeps its count, special ones have none |
| App.CleanTargetIdempotent | wis2downloader/app.py:53-62 | cleaning twice is cleaning once |
| App.CleanTargetDropsPlaceholder | wis2downloader/app.py:53-60 | `$TOPIC` is cleaned to `TOPIC` |
| App.DefaultsUntouched | wis2downloader/app.py:205-213 | a topic the configuration does not name keeps its entry or its absence |
| App.DefaultsEntry | wis2downloader/app.py:205-213 | a valid configured topic ends up subscribed with its cleaned target and pattern; an invalid one is skipped |
| App.AddDefaultSubscriptions | wis2downloader/app.py:205-213 | the loop's order, table and broker calls are those of the fold over the configuration |
| App.Shutdown | wis2downloader/app.py:244-249 | at most one sentinel per worker |
| App.ShutdownBlockedWorkers | wis2downloader/app.py:244-249 | workers blocked on an empty queue each get exactly one sentinel and the queue ends empty |
| App.ShutdownBusyQueue | wis2downloader/app.py:246-248 | with jobs still queued and not taken, no sentinel is sent |
| App.ShutdownQueueBound | wis2downloader/app.py:246-248 | a sentinel only goes into an empty queue: the queue never grows beyond its size, or one |
| App.ShutdownWorkers | wis2downloader/app.py:244-249 | the queue and the number of sentinels are those of the shutdown function; each sentinel is counted as unfinished |
| TargetValidation.ValidateTarget | wis2downloader/utils/validate_target.py:6-32 | accepted exactly for `$TOPIC` or a string of `A-Za-z0-9/_-`; the message is empty on acceptance and `Invalid target` on rejection |
| TargetValidation.PlaceholderAccepted | wis2downloader/utils/validate_target.py:17-18 | `$TOPIC` gives `(True, "")` |
| TargetValidation.EmptyTargetAccepted | wis2downloader/utils/validate_target.py:21-32 | the empty target gives `(True, "")` |
| TargetValidation.MistakeRejected | tests/test_client.py:70-81 | `MI$TAK€` gives `(False, "Invalid target")` |
| TargetValidation.AcceptedTargetStaysInside | wis2downloader/utils/validate_target.py:17-28 | apart from `$TOPIC`, an accepted target has no `.` or `$` and parses to no `..` component |

## Left out

- MQTT, HTTP and threads. The paho client, the connection callbacks, TLS and websockets are not
  modelled, and neither are urllib3 and the concurrency between threads. Broker calls are a log. The
  response body is a parameter. The interleaving of workers at shutdown is a per-worker count of jobs
  taken during each join (App.ShutdownWorkers). That count assumes each `join` of worker k returns
  once a sentinel is taken. With several workers waiting on an empty queue, the sentinel sent during
  `join(k)` can wake another worker, and `join(k)` then never returns. That case is not modelled.
- `json.loads` of the payload and the JSON structure of notifications: a notification is already a
  record of links and integrity fields.
- Logging, the Prometheus metrics and `QMonitor`'s periodic size report.
- The Flask routes, `main`'s argument and configuration handling, and `cli.py`. The files that only
  configure logging, `log.py` and `utils/config.py`, are out too.
- `wis2downloader/utils/validate_topic.py`: its verdict comes from the external topic-hierarchy
  package.
- fnmatch character classes. `[` in a pattern is outside the model, so `OnMessage` and
  `ResolveTarget` require no `[` in any subscribed topic.
- `urlsplit` beyond the path: netloc NFKC checks and port and host validation inside brackets are
  not modelled, only the unmatched-bracket error.
- The private and dunder attributes of `hashlib` that `getattr` could return. Only the digest
  constructors and the other public names are modelled.
- Path aliases. The filesystem is keyed by paths as written, so `x/../y/f` and `y/f` are two
  different files in the model while the OS sees one. A configured target such as `a/../b`, a
  `$TOPIC` target from a topic with a `..` level, or a URL whose basename is `..` can produce such
  paths. For them the duplicate-file check (`Downloader.DedupSkip`, `Downloader.RepeatedJobSkipped`)
  and the statement that only the target changes (`Downloader.ProcessJobFiles`) hold for the paths
  as written, not for the files the OS resolves them to. Symbolic links are not modelled either.
- Permissions, disk-full and other OS errors. `write_bytes` fails only where the target is a
  directory or its parent is not one.
- Subscriber.NormalizeSeparators: a target mixing `/` and `\` is rewritten twice. Only the
  absence of backslashes is proved for it, not its exact shape.
- Subscriber.MqttSubscriber.AddSubscription: paho's `client.subscribe` is called before the table is
  updated and raises `ValueError` for the empty topic and for filters where `+` or `#` does not fill
  a whole level (`a+/b`, `a/b#`). The model treats `subscribe` as always succeeding, so for those
  topics it stores an entry that the program never stores.
- App.AddDefaultSubscriptions: `validate_topic` lets those same topics through, and in the program
  the `ValueError` ends `main` part-way through the configured list. The model adds every valid topic
  and finishes the loop.
- `list_subscriptions` returns the live dictionary, which callers could mutate. The model returns a
  copy.
- Downloader.DownloadWorker.Start: requires that each queued job was counted as unfinished, as
  `enqueue` does, and that the flag is set or a sentinel is queued within the jobs. The blocking wait
  on an empty queue is not modelled; `Downloader.RunNeverBlocks` shows the loop never reaches it
  under that requirement.
- The legacy `downloader/`, `subscriber/` and `app.py` at the top level of the repository are not
  part of this model. They are earlier versions of the modelled files and are not loaded by the
  package.
