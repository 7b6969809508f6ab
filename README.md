# Toolshed core, modelled in Dafny

This project models the decision logic of several tools in the Toolshed
repository and proves what each promises.

- **arXiv LaTeX translator** (`translate_arxiv`). LaTeX objects (math,
  environments, commands, brace groups) are swapped for numbered
  placeholders `<mathCode>_d_d_…` in a fixed pattern order. The remaining
  text is prepared:
  - lines are joined and over-long sentences split;
  - titles are isolated;
  - runs of spaces are collapsed;
  - lines are packed under the engine's character limit.

  The text is then translated, and the objects are substituted back until
  none is left, with counts of bad and total objects. Around this sit:
  - the document split and completeness check;
  - the special-character and accent escapes;
  - comment, bibliography-note and format removal;
  - `\newcommand` expansion;
  - the environment and command rewriters;
  - the paragraph cache, with eviction of the oldest directories;
  - the cache-or-translate worker;
  - document framing and reassembly.

  The regular expressions become explicit leftmost-match scanners. The
  balanced-brace pattern is a depth-counting scanner. The translation
  engine is a script of replies: a translation, a rate-limit error or
  another error. The configuration values (`mathCode`,
  `testEnvironment`, the multi-argument command list) are parameters.
- **GPU task scheduler** (`gpu_scheduler`). A `TaskScheduler` class covers:
  - the list of tasks and its status machine (pending, running, completed,
    failed);
  - a cursor that only moves forward;
  - launches gated on a memory check;
  - unique log-file names and file-name sanitising.
- **m3u8 ad filter** (`filter_ads_in_m3u8`). It picks the least frequent
  frame rate and drops the playlist lines of its segments.
- **Download-size picker** (`anti_ban`). It covers the size header rule,
  Python's `int()` on header text, and the choice of the server with the
  largest download.
- **DNS latency checker** (`check_DNS`). It covers folder-name sanitising,
  pairing addresses with delays, the stable sort of the low-latency
  addresses, and the top-three fallback.

One Dafny module per source component:

| module | file | models |
|---|---|---|
| `Text` | text.dfy | string helpers: find, rfind, split and join |
| `Placeholder`, `Matchers`, `Extract` | placeholder.dfy, matchers.dfy, extract.dfy | placeholders and object extraction |
| `Recover`, `Restore`, `Mismatch` | recover.dfy, restore.dfy, mismatch.dfy | recovery and the bad-object count |
| `Nested` | nested.dfy | extracted objects only name earlier ones |
| `LatexDoc`, `Escapes`, `Rewriters`, `Newcommands` | latex_doc.dfy, escapes.dfy, rewriters.dfy, newcommands.dfy | the text transforms of `process_latex.py` |
| `Paragraphs` | paragraphs.dfy | `process_text.py` |
| `Translate` | translate.dfy | `translate.py` |
| `Cache` | cache.dfy | `cache.py` |
| `GpuScheduler`, `M3u8`, `AntiBan`, `CheckDns` | gpu_scheduler.dfy, m3u8.dfy, anti_ban.dfy, check_dns.dfy | the small tools |
| `Wrappers` | wrappers.dfy | `Option` and `Result` |

Where the source mutates an object (the text translator, the LaTeX
translator, the cache directory, the scheduler), the model is a class with
`modifies` frames. Its methods are proved against specification functions
of the old state. Loops become methods with invariants, and pure
transforms become functions with lemmas.

## Model

| member | source | states |
|---|---|---|
| AntiBan.Keys | anti_ban/antiBan.py:55-60 | the keys of the dictionary, in insertion order, one per entry |
| AntiBan.Get | anti_ban/antiBan.py:66-67 | `d.get(k)` is absent exactly when `k` is not a key, and otherwise is a value stored under `k` |
| AntiBan.IndexOf | anti_ban/antiBan.py:60 | the position of key `k` is the first entry holding `k` |
| AntiBan.GetAt | anti_ban/antiBan.py:67 | with distinct keys, looking up the key of entry `i` gives entry `i`'s value |
| AntiBan.ReplaceSpec | anti_ban/antiBan.py:60 | overwriting an existing key keeps the keys, their order, their distinctness and every other key's value |
| AntiBan.AppendSpec | anti_ban/antiBan.py:60 | a new key is appended after the others; every other key keeps its value |
| AntiBan.AssignSpec | anti_ban/antiBan.py:60 | after `download_sizes[server] = size` the server maps to the size, other keys are unchanged, keys stay distinct, and a new key goes last |
| AntiBan.Strip | anti_ban/antiBan.py:44-46 | the whitespace `int()` ignores: no whitespace is left at either end and every non-blank character is kept |
| AntiBan.DropUnderscores | anti_ban/antiBan.py:44-46 | digits with underscores between them become plain digits |
| AntiBan.Magnitude | anti_ban/antiBan.py:44-46 | an unsigned digit string parses to a value of at least 0 |
| AntiBan.ParseInt | anti_ban/antiBan.py:44-46 | `int(s)` succeeds only when `s` holds nothing but whitespace, a sign, digits and underscores |
| AntiBan.ParseIntDecimal | anti_ban/antiBan.py:44-46 | `int(str(n)) == n` for every natural `n` |
| AntiBan.ParseIntNegative | anti_ban/antiBan.py:44-46 | `int("-" + str(n)) == -n` |
| AntiBan.LastPiece | anti_ban/antiBan.py:44 | `split('/')[-1]` holds no slash |
| AntiBan.LastPieceAfterSlash | anti_ban/antiBan.py:44 | the last piece after `prefix/` followed by a number is that number |
| AntiBan.DownloadSize | anti_ban/antiBan.py:41-52 | a failed request gives no size; a response with neither header, in any spelling of its name, gives 0 |
| AntiBan.CheckServerDownloadSize | anti_ban/antiBan.py:40-52 | the server comes back paired with its size, and with none when the request failed |
| AntiBan.ContentRangeWins | anti_ban/antiBan.py:43-44 | a single `Content-Range` ending in `/total` gives `total`, whatever `Content-Length` says |
| AntiBan.ContentLengthUsed | anti_ban/antiBan.py:45-46 | without `Content-Range`, a single decimal `Content-Length` is the size |
| AntiBan.UnknownTotalFails | anti_ban/antiBan.py:43-52 | a single `Content-Range` ending in `/*` makes `int()` raise, so the size is `None` |
| AntiBan.Lower | anti_ban/antiBan.py:43-46 | header names compare case-insensitively: each ASCII capital becomes its small letter, every other character is kept |
| AntiBan.ValuesOf | anti_ban/antiBan.py:43-46 | the values of every header line whose name matches, whatever its case, in the order received |
| AntiBan.HeaderPresent | anti_ban/antiBan.py:43-45 | `name in response.headers` holds exactly when some header line has that name in some spelling |
| AntiBan.ValuesOfSingle | anti_ban/antiBan.py:44-46 | a name sent on one line only yields exactly that line's value |
| AntiBan.ValuesOfNone | anti_ban/antiBan.py:43-45 | a name sent on no line yields no value |
| AntiBan.ContentLengthAnyCase | anti_ban/antiBan.py:45-46 | `content-length` in lower case, as HTTP/2 sends it, is read like `Content-Length` |
| AntiBan.RepeatedLengthFails | anti_ban/antiBan.py:45-52 | two `Content-Length` lines are joined with `, `, which `int()` rejects, so the size is `None` |
| AntiBan.CheckDownloadSizes | anti_ban/antiBan.py:54-61 | the dictionary is the completed results assigned one after the other, with distinct keys |
| AntiBan.CollectedDistinct | anti_ban/antiBan.py:55-60 | the collected dictionary never holds a key twice |
| AntiBan.CollectedLast | anti_ban/antiBan.py:58-60 | each server maps to the size of its last completed check; servers never checked are absent |
| AntiBan.LastSize | anti_ban/antiBan.py:58-60 | a server has a last size exactly when some completed check was for it |
| AntiBan.LargestAt | anti_ban/antiBan.py:66 | `max` with the `None`-as-minus-one key picks an entry of highest rank, the first one on ties |
| AntiBan.GetLargestDownloadIp | anti_ban/antiBan.py:63-67 | `(None, None)` exactly for an empty dictionary |
| AntiBan.LargestChoice | anti_ban/antiBan.py:63-67 | the chosen server is a key, its size is the value stored for it, no server ranks higher, and no earlier server ranks the same |
| AntiBan.ReachableBeatsFailed | anti_ban/antiBan.py:66 | a server that answered with a size is chosen over every server whose check failed: the chosen size is at least its size |
| Cache.GetTime | translate_arxiv/cache.py:30-37 | an unreadable time file gives no time (the error the caller catches); a missing one gives infinity |
| Cache.Argmin | translate_arxiv/cache.py:46-47 | the index of a smallest time, the first such index on ties |
| Cache.Times | translate_arxiv/cache.py:63 | one time per directory, each the one `get_time` reads |
| Cache.Readable | translate_arxiv/cache.py:52-58 | the directories left after the first loop are all readable and no more than before |
| Cache.ReadableKeeps | translate_arxiv/cache.py:52-58 | the first loop removes exactly the directories whose time file cannot be read |
| Cache.Evict | translate_arxiv/cache.py:59-65 | eviction keeps every directory readable |
| Cache.EvictKeeps | translate_arxiv/cache.py:59-65 | the loop leaves `min(n, maxCache)` directories, all from the listing, and removes none when there are at most `maxCache` |
| Cache.EvictOldestFirst | translate_arxiv/cache.py:59-65 | every removed directory has a time no later than every kept one |
| Cache.MissingEvictedLast | translate_arxiv/cache.py:35-37 | a directory without a time file counts as infinitely new, so it is removed only once every directory kept also lacks one (the comment at line 37 says the opposite) |
| Cache.CacheStore.constructor | translate_arxiv/cache.py:25-27 | the store starts from a listing of distinct directory names |
| Cache.CacheStore.LoadParagraph | translate_arxiv/cache.py:79-84 | a paragraph is returned exactly when the document's directory holds its file |
| Cache.CacheStore.RemoveExtra | translate_arxiv/cache.py:50-66 | the directories left are those `Evict(Readable(...))` keeps, with distinct names |
| Cache.CacheStore.DropUnreadable | translate_arxiv/cache.py:52-58 | the first loop leaves exactly the readable directories, in order |
| Cache.CacheStore.DropOldest | translate_arxiv/cache.py:59-65 | the second loop leaves exactly what `Evict` keeps |
| Cache.CacheStore.CreateCache | translate_arxiv/cache.py:73-76 | the directory exists afterwards with the new time, keeps the files it had, and no other directory changes |
| Cache.CacheStore.WriteParagraph | translate_arxiv/cache.py:87-89 | the write succeeds exactly when the directory exists; afterwards the file reads back as the paragraph and nothing else changes; a failed write changes nothing |
| Cache.IndexOf | translate_arxiv/cache.py:68-70 | a directory path names the entry with that key, or none exists |
| Cache.RemoveAtUnique | translate_arxiv/cache.py:52-65 | removing a directory keeps the names distinct |
| CheckDns.SanitizeFolderName | check_DNS/checkDNS.py:35-38 | the same length; each of `<>:"/\|?*` becomes `_` and every other character is kept |
| CheckDns.SanitizeIdempotent | check_DNS/checkDNS.py:35-38 | sanitising twice is sanitising once |
| CheckDns.SplitLines | check_DNS/checkDNS.py:67 | `splitlines()` pieces hold no line break |
| CheckDns.LinesJoin | check_DNS/checkDNS.py:92-97 | writing each address followed by `\n` is the lines joined by `\n` plus a final `\n` |
| CheckDns.LinesRoundTrip | check_DNS/checkDNS.py:92-97 | lines written one per line read back as the same lines |
| CheckDns.RewriteMergesAddresses | check_DNS/checkDNS.py:66-73 | reading the rewritten file back gives one merged line instead of the addresses |
| CheckDns.RewriteMergesExample | check_DNS/checkDNS.py:71-73 | `["1.1.1.1", "8.8.8.8"]` reads back as `["1.1.1.18.8.8.8"]` |
| CheckDns.RewriteIpList | check_DNS/checkDNS.py:71-73 | the list file written one address per line reads back as the same addresses |
| CheckDns.Zip | check_DNS/checkDNS.py:84-85 | `zip` pairs each address with its delay, as many pairs as the shorter list |
| CheckDns.LowDelayExact | check_DNS/checkDNS.py:86-87 | `good_ips` holds each entry with a delay under 100 as often as `ip_info` does, and nothing else |
| CheckDns.InsertPermutes | check_DNS/checkDNS.py:91 | inserting adds exactly the new entry |
| CheckDns.InsertAscending | check_DNS/checkDNS.py:91 | inserting into a list sorted by delay keeps it sorted |
| CheckDns.InsertStable | check_DNS/checkDNS.py:91 | entries of equal delay keep their order, the new one last |
| CheckDns.SortPermutes | check_DNS/checkDNS.py:91 | sorting is a permutation |
| CheckDns.SortAscending | check_DNS/checkDNS.py:91 | the sorted list ascends by delay |
| CheckDns.SortStable | check_DNS/checkDNS.py:91 | `sort` is stable: entries of each delay keep their relative order |
| CheckDns.SelectIps | check_DNS/checkDNS.py:77-103 | the entries are the zipped pairs and the report is the one `Outcome` describes |
| CheckDns.LowDelaySorted | check_DNS/checkDNS.py:86-91 | the good list after sorting ascends, holds exactly the entries under the threshold, and keeps the order of equal delays |
| CheckDns.LowDelayFileLines | check_DNS/checkDNS.py:92-97 | the file of fast addresses reads back as those addresses in order |
| CheckDns.LowDelayReport | check_DNS/checkDNS.py:89-97 | when some delay is under 100, the report lists exactly those entries, fastest first and stable, and its file reads back as their addresses |
| CheckDns.NoneLow | check_DNS/checkDNS.py:89-98 | no good address means every delay is at least 100 |
| CheckDns.PrefixFastest | check_DNS/checkDNS.py:99-103 | the first `num` entries of the sorted list include every entry faster than any of them |
| CheckDns.FallbackReport | check_DNS/checkDNS.py:98-103 | otherwise the report names the `min(n, 3)` fastest entries, ascending, each an original entry, with every faster entry among them |
| GpuScheduler.ReplaceIllegal | gpu_scheduler/gpu_scheduler.py:36 | each of `<>:"/\|?*` becomes `_`; every other character is kept, so no illegal character is left |
| GpuScheduler.TrimStart | gpu_scheduler/gpu_scheduler.py:38-39 | `lstrip`: a suffix of the input that does not start with a dropped character |
| GpuScheduler.TrimEnd | gpu_scheduler/gpu_scheduler.py:38-39 | `rstrip`: a prefix of the input that does not end with a dropped character |
| GpuScheduler.Strip | gpu_scheduler/gpu_scheduler.py:38-39 | `strip`: neither end is a dropped character, and the result is no longer than the input |
| GpuScheduler.StripClean | gpu_scheduler/gpu_scheduler.py:38-39 | stripping keeps a name free of illegal characters and of whitespace |
| GpuScheduler.StripKeeps | gpu_scheduler/gpu_scheduler.py:38-39 | stripping a name whose ends are not dropped characters changes nothing |
| GpuScheduler.CollapseSpaces | gpu_scheduler/gpu_scheduler.py:38 | `re.sub(r'\s+', '_', ...)` leaves no whitespace and never lengthens the name |
| GpuScheduler.CollapseKeepsLegal | gpu_scheduler/gpu_scheduler.py:38 | replacing whitespace runs introduces no illegal character |
| GpuScheduler.CollapseNoSpaces | gpu_scheduler/gpu_scheduler.py:38 | a name without whitespace is unchanged |
| GpuScheduler.Truncate | gpu_scheduler/gpu_scheduler.py:41-42 | the cut keeps at most `max_length` characters, is empty only if the name was (or the limit is 0), and keeps the first character |
| GpuScheduler.Cleaned | gpu_scheduler/gpu_scheduler.py:36-39 | after the replacements and strips the name holds no illegal character, no whitespace, and does not start with `.` |
| GpuScheduler.Sanitize | gpu_scheduler/gpu_scheduler.py:24-47 | the file name is never empty, never starts with `.`, holds no illegal character and no whitespace, and is at most `max_length` long unless it is `unnamed` |
| GpuScheduler.UnnamedClean | gpu_scheduler/gpu_scheduler.py:44-45 | the fallback `unnamed` is itself a clean name |
| GpuScheduler.SanitizeKeepsClean | gpu_scheduler/gpu_scheduler.py:24-47 | a name that is already clean and short enough comes back unchanged |
| GpuScheduler.PathJoinInjective | gpu_scheduler/gpu_scheduler.py:221-225 | `os.path.join` of the same directory with two relative (or two absolute) names is equal only when the names are |
| GpuScheduler.CandidateInjective | gpu_scheduler/gpu_scheduler.py:221-225 | the base name and the numbered names `name_1.log`, `name_2.log`, ... are pairwise distinct |
| GpuScheduler.Candidates | gpu_scheduler/gpu_scheduler.py:221-225 | the set of the first `n` candidate names holds each of them |
| GpuScheduler.CandidatesCount | gpu_scheduler/gpu_scheduler.py:221-225 | the first `n` candidates are `n` different names |
| GpuScheduler.CandidateFresh | gpu_scheduler/gpu_scheduler.py:221-225 | a later candidate is none of the earlier ones |
| GpuScheduler.CounterBound | gpu_scheduler/gpu_scheduler.py:223-226 | every candidate tried so far is taken, so the counter never exceeds the number of log files in use: the loop terminates |
| GpuScheduler.FreeLogFile | gpu_scheduler/gpu_scheduler.py:220-226 | the chosen log file is the first candidate no existing task uses |
| GpuScheduler.LogFiles | gpu_scheduler/gpu_scheduler.py:224 | the set of log files is exactly those of all tasks |
| GpuScheduler.LogFilesCount | gpu_scheduler/gpu_scheduler.py:224 | there are no more log files than tasks |
| GpuScheduler.AppendKeepsInv | gpu_scheduler/gpu_scheduler.py:228-234 | appending a pending task with the next id and a fresh log file keeps the scheduler invariant |
| GpuScheduler.AppendOrdered | gpu_scheduler/gpu_scheduler.py:209-234 | task ids stay equal to positions and tasks after the current one stay pending |
| GpuScheduler.AppendUnique | gpu_scheduler/gpu_scheduler.py:224-234 | log files stay pairwise distinct |
| GpuScheduler.Checked | gpu_scheduler/gpu_scheduler.py:322-358 | a still-running process leaves the state as it was; otherwise no process remains afterwards |
| GpuScheduler.CheckedKeepsInv | gpu_scheduler/gpu_scheduler.py:322-358 | checking the current process keeps the invariant and each task's identity; it says "running" iff there is a process and it has no exit code; a finished process records its exit code, completes on 0 and fails otherwise, and moves the index on by one |
| GpuScheduler.Executed | gpu_scheduler/gpu_scheduler.py:284-320 | launching succeeds exactly when a process was started, which becomes the current one; a failed launch keeps the old process; the index does not move |
| GpuScheduler.LaunchKeepsInv | gpu_scheduler/gpu_scheduler.py:284-320 | with the caller's skip on failure (line 416) the invariant holds; a launched task is running with the new process, a failed one is marked failed with an end time |
| GpuScheduler.GetGpuMemoryInfo | gpu_scheduler/gpu_scheduler.py:86-109 | there is a reading exactly when the GPU id is below the device count and the device answered; each figure is the byte count floored to MiB |
| GpuScheduler.CheckGpuMemoryBytes | gpu_scheduler/gpu_scheduler.py:263-282 | memory counts as available exactly when the device is readable and its free bytes reach the required MiB |
| GpuScheduler.Pass | gpu_scheduler/gpu_scheduler.py:392-420 | one round of the main loop leaves a current process only on a real task |
| GpuScheduler.PassKeepsInv | gpu_scheduler/gpu_scheduler.py:392-420 | one round keeps the invariant and each task's identity, and never moves the index back |
| GpuScheduler.RunLoopKeepsInv | gpu_scheduler/gpu_scheduler.py:392-424 | running to the end of the observations keeps the invariant; the run is finished exactly when every task has been taken, and then no process remains |
| GpuScheduler.NoMemoryNoStart | gpu_scheduler/gpu_scheduler.py:405-411 | while memory stays insufficient and nothing runs, the scheduler does not change |
| GpuScheduler.CountStatus | gpu_scheduler/gpu_scheduler.py:362-371 | a status count is at most the number of tasks |
| GpuScheduler.CountsPrefix | gpu_scheduler/gpu_scheduler.py:362-371 | on the first `n` tasks the finished ones are those before the index, and at most one is running |
| GpuScheduler.SummaryCounts | gpu_scheduler/gpu_scheduler.py:360-381 | completed plus failed equals the index, pending plus running is the rest, one task runs iff there is a process, and memory counts as sufficient when the check passes, or when the reading fails (zero free) and no memory is required |
| GpuScheduler.TaskScheduler.constructor | gpu_scheduler/gpu_scheduler.py:129-166 | a new scheduler has no tasks, no process and index 0, and keeps its GPU settings and log directory |
| GpuScheduler.TaskScheduler.AddTask | gpu_scheduler/gpu_scheduler.py:198-238 | the new task is appended with id equal to the old length, pending, with the first free log file; nothing else changes |
| GpuScheduler.TaskScheduler.ExecuteTask | gpu_scheduler/gpu_scheduler.py:284-320 | the new state and result are those `Executed` describes |
| GpuScheduler.TaskScheduler.CheckCurrentProcess | gpu_scheduler/gpu_scheduler.py:322-358 | the new state and result are those `Checked` describes |
| GpuScheduler.TaskScheduler.RunPass | gpu_scheduler/gpu_scheduler.py:392-420 | one round of the loop moves the scheduler as `Pass` describes |
| GpuScheduler.TaskScheduler.Run | gpu_scheduler/gpu_scheduler.py:383-424 | the whole run moves the scheduler as `RunLoop` describes, keeping the invariant |
| M3u8.FilesWith | filter_ads_in_m3u8/filterAdsM3u8.py:33-35 | the files grouped under a frame rate are drawn from the data |
| M3u8.Rates | filter_ads_in_m3u8/filterAdsM3u8.py:33-35 | the `defaultdict` keys: no more than the files, and at least one when there is any file |
| M3u8.RatesExact | filter_ads_in_m3u8/filterAdsM3u8.py:33-35 | the keys are distinct, are exactly the rates that occur, and each groups at least one file |
| M3u8.RatesOrder | filter_ads_in_m3u8/filterAdsM3u8.py:33-35 | keys appear in the order their rates are first seen |
| M3u8.FilesWithExact | filter_ads_in_m3u8/filterAdsM3u8.py:33-35 | a file is in a rate's group exactly when that is its rate |
| M3u8.FilesWithFrom | filter_ads_in_m3u8/filterAdsM3u8.py:33-35 | every grouped file comes from the data with that rate |
| M3u8.Fewest | filter_ads_in_m3u8/filterAdsM3u8.py:37 | `min` by group size picks a smallest group, the first such key on ties |
| M3u8.FewestFirst | filter_ads_in_m3u8/filterAdsM3u8.py:37 | no later key with an equally small group is chosen |
| M3u8.Analyses | filter_ads_in_m3u8/filterAdsM3u8.py:32-40 | `None` exactly for empty data; otherwise the group of the least frequent frame rate |
| M3u8.MinorityChoice | filter_ads_in_m3u8/filterAdsM3u8.py:32-40 | for non-empty data with distinct files the result holds exactly the files whose rate is the chosen one, that rate occurs, and no rate occurs less often |
| M3u8.MinorityFirstSeen | filter_ads_in_m3u8/filterAdsM3u8.py:37 | among equally rare rates the one seen first wins |
| M3u8.Marked | filter_ads_in_m3u8/filterAdsM3u8.py:53-60 | marked indices lie between one before the start and the end of the file |
| M3u8.Tested | filter_ads_in_m3u8/filterAdsM3u8.py:55-60 | the loop only visits lines from the start to the end |
| M3u8.MarkForRemoval | filter_ads_in_m3u8/filterAdsM3u8.py:53-60 | the `while` loop collects exactly the indices `Marked` describes |
| M3u8.MarkedHits | filter_ads_in_m3u8/filterAdsM3u8.py:56-58 | a visited line naming an ad file is removed together with the line before it |
| M3u8.MarkedOnlyHits | filter_ads_in_m3u8/filterAdsM3u8.py:56-58 | a line is removed only if it is a visited hit or the line just before one |
| M3u8.TestedSkipsNext | filter_ads_in_m3u8/filterAdsM3u8.py:59-60 | the line after a hit is never tested |
| M3u8.UntestedFollowsHit | filter_ads_in_m3u8/filterAdsM3u8.py:59-60 | every untested line directly follows a hit |
| M3u8.KeptFrom | filter_ads_in_m3u8/filterAdsM3u8.py:61 | the kept lines are no more than the lines |
| M3u8.KeptIndices | filter_ads_in_m3u8/filterAdsM3u8.py:61 | the kept indices are exactly the unremoved ones, ascending |
| M3u8.KeptAt | filter_ads_in_m3u8/filterAdsM3u8.py:61 | `new_lines` is the lines at the kept indices, in order |
| M3u8.KeptUntouched | filter_ads_in_m3u8/filterAdsM3u8.py:61 | a stretch with nothing removed is copied as it is |
| M3u8.RebuildM3u8 | filter_ads_in_m3u8/filterAdsM3u8.py:43-63 | the written lines are the playlist with every marked index dropped, the file list minus its first entry being the ads |
| M3u8.FilterAds | filter_ads_in_m3u8/filterAdsM3u8.py:66-74 | no frame rates gives no result (where `main` would crash); otherwise the playlist is rebuilt without the minority-rate files |
| M3u8.KeptPlaylist | filter_ads_in_m3u8/filterAdsM3u8.py:61 | dropping both lines of every ad segment of a header/segments/trailer playlist leaves header, clean segments, trailer |
| M3u8.MarkedPlaylist | filter_ads_in_m3u8/filterAdsM3u8.py:53-60 | when only segment URIs name ad files, the loop marks exactly the tag and URI lines of the ad segments |
| M3u8.RebuildDropsSegments | filter_ads_in_m3u8/filterAdsM3u8.py:53-61 | such a playlist loses exactly its ad segments, tag and URI together, and nothing else |
| Text.Find | translate_arxiv/process_latex.py:206 | `str.find`: -1 when the pattern does not occur from `start` on, otherwise its first occurrence there |
| Text.RFind | translate_arxiv/process_latex.py:207 | `str.rfind`: -1 when the pattern does not occur up to `end`, otherwise its last occurrence there |
| Text.Split | translate_arxiv/process_text.py:12 | `str.split(c)` gives at least one piece, and no piece holds `c` |
| Text.JoinSplit | translate_arxiv/process_text.py:12-22 | joining the pieces of a split with the separator gives the text back |
| Text.SplitJoin | translate_arxiv/process_text.py:12-22 | splitting pieces joined by a separator they do not contain gives the pieces back |
| Text.SplitAppend | translate_arxiv/process_text.py:39 | splitting `a + c + b` is splitting `a` then `b` |
| Text.SplitNoSeparator | translate_arxiv/process_text.py:39 | a text without the separator is a single piece |
| Text.SplitPieceLength | translate_arxiv/process_text.py:41 | no piece is longer than the text |
| Text.JoinAppend | translate_arxiv/process_text.py:51 | joining two non-empty lists is joining each, with one separator between |
| Text.ReplaceAllAbsent | translate_arxiv/process_latex.py:377 | `str.replace` of a pattern that does not occur changes nothing |
| Text.ThinnedRefl | translate_arxiv/process_text.py:11-22 | every text is a thinning of itself |
| Text.ThinnedDrop | translate_arxiv/process_text.py:11-22 | dropping a single separator is a thinning |
| Text.ThinnedAppend | translate_arxiv/process_text.py:11-22 | thinnings of two parts join to a thinning of the whole |
| Text.ThinnedTrans | translate_arxiv/process_text.py:11-22 | a thinning of a thinning is a thinning |
| Placeholder.DigitChar | translate_arxiv/process_latex.py:81 | a digit value below 10 becomes a decimal digit character |
| Placeholder.DigitValue | translate_arxiv/process_latex.py:159 | a digit character has a value below 10 |
| Placeholder.DigitRoundTrip | translate_arxiv/process_latex.py:81 | a digit read back from its character is the same digit |
| Placeholder.DecimalString | translate_arxiv/process_latex.py:81 | `str(n)` is a non-empty run of digits without a leading zero unless `n` is 0 |
| Placeholder.ParseDecimalString | translate_arxiv/process_latex.py:159 | `int(str(n)) == n` |
| Placeholder.Singletons | translate_arxiv/process_latex.py:81 | `list(str(count))`: one one-character string per digit |
| Placeholder.JoinSingletons | translate_arxiv/process_latex.py:79-83 | joining the one-character strings with nothing between gives the digits back |
| Placeholder.JoinEmptyKeeps | translate_arxiv/process_latex.py:159 | `''.join` introduces no character the parts do not hold |
| Placeholder.JoinedDigitsParts | translate_arxiv/process_latex.py:159 | joining digit groups gives a digit group |
| Placeholder.SplitPartsDigitGroups | translate_arxiv/process_latex.py:159 | splitting a digit group at `_` gives digit groups |
| Placeholder.JoinedDigits | translate_arxiv/process_latex.py:159 | `''.join(digitStr.split('_'))` of a matched digit group is all digits |
| Placeholder.CodeBodyChars | translate_arxiv/process_latex.py:82 | `"_".join(digits)` is a digit group that starts and ends with a digit |
| Placeholder.VariableCodeShape | translate_arxiv/process_latex.py:79-83 | a placeholder is the math code, `_`, then a digit group that starts and ends with a digit |
| Placeholder.DecodeVariableCode | translate_arxiv/process_latex.py:79-83 | decoding the digit group of `variable_code(n)` as `get_obj` does gives `n` back |
| Placeholder.VariableCodeInjective | translate_arxiv/process_latex.py:79-83 | different counts give different placeholders |
| Placeholder.GroupTail | translate_arxiv/process_latex.py:9 | the end of a `(?:_\d+)*` run lies between its start and the end of the text |
| Placeholder.DigitGroupEnd | translate_arxiv/process_latex.py:9 | a `\d+(?:_\d+)*` match starting at a digit is non-empty |
| Placeholder.GroupTailChars | translate_arxiv/process_latex.py:9 | such a run holds only digits and underscores and ends with a digit |
| Placeholder.DigitGroupEndChars | translate_arxiv/process_latex.py:9 | the digit group holds only digits and underscores and ends with a digit |
| Placeholder.MatchFromChars | translate_arxiv/process_latex.py:9 | a literal matches at a position exactly when each of its characters does |
| Placeholder.SentinelAtChars | translate_arxiv/process_latex.py:9 | the math code followed by `_` occurs at a position exactly when each of its characters does |
| Placeholder.SentinelAtLength | translate_arxiv/process_latex.py:9 | an occurrence of the math code and `_` fits in the text |
| Placeholder.CodeTokenAt | translate_arxiv/process_latex.py:9 | a `matchCode` match starts with the math code and `_` and holds at least one digit |
| Placeholder.SplitCodesFlatten | translate_arxiv/process_latex.py:88-92 | the pieces of `re.split(matchCode, ...)` join back to the text |
| Placeholder.SplitCodesFlattenAtCode | translate_arxiv/process_latex.py:88-92 | the same from a position where a placeholder starts |
| Placeholder.FlattenPair | translate_arxiv/process_latex.py:92 | joining a plain piece and a placeholder is their concatenation |
| Placeholder.SplitCodesCodes | translate_arxiv/process_latex.py:88-90 | every placeholder piece starts with the math code and `_` |
| Placeholder.MapPlain | translate_arxiv/process_latex.py:89-91 | the function is applied to plain pieces only; placeholders are left as they are |
| Placeholder.MapPlainIdentity | translate_arxiv/process_latex.py:89-91 | mapping the identity leaves the pieces unchanged |
| Placeholder.ModifyTextIdentity | translate_arxiv/process_latex.py:86-93 | `modify_text` with the identity returns the text unchanged |
| Matchers.LettersEnd | translate_arxiv/process_latex.py:36 | `[a-zA-Z]+` is greedy: the run is all letters and stops before a non-letter |
| Matchers.BlanksEnd | translate_arxiv/process_latex.py:14 | `[ \t]*` is greedy: the run is blanks and stops before a non-blank |
| Matchers.BracketFrom | translate_arxiv/process_latex.py:13 | the scan stops at the first `[` or `]` |
| Matchers.OptionsAt | translate_arxiv/process_latex.py:13 | an options group runs from `[` to the first `]` with no bracket between |
| Matchers.CloseFrom | translate_arxiv/process_latex.py:16 | the balanced-brace scan ends on a `}` |
| Matchers.CloseFromSpec | translate_arxiv/process_latex.py:16 | the scan stops where the braces first balance, and fails only if they never do |
| Matchers.BraceAt | translate_arxiv/process_latex.py:16 | a braced group runs from `{` to a `}` |
| Matchers.BraceAtMatches | translate_arxiv/process_latex.py:16 | a braced group ends at the matching `}`; it is missing only when the braces never balance |
| Matchers.CommandNameAt | translate_arxiv/process_latex.py:20-21 | a command name starts with a backslash |
| Matchers.CommandAt | translate_arxiv/process_latex.py:20-33 | a command with an argument runs from its backslash to a closing brace |
| Matchers.ArgsFrom | translate_arxiv/process_latex.py:28-30 | `n` braced arguments end on a `}` when `n > 0` |
| Matchers.CommandArgsAt | translate_arxiv/process_latex.py:20-33 | a command with `n` arguments starts with a backslash and, when `n > 0`, ends with a `}` |
| Matchers.CommandSimpleAt | translate_arxiv/process_latex.py:40 | `\xxx` is a backslash followed by at least one letter |
| Matchers.SetPrefixAt | translate_arxiv/process_latex.py:44-45 | `\set[a-zA-Z]*` starts with a backslash and spans at least four characters |
| Matchers.LazyBraceAt | translate_arxiv/process_latex.py:44-45 | `\{.*?\}` runs from `{` to the first `}` |
| Matchers.SetCommandAt | translate_arxiv/process_latex.py:44 | `patternSet1` runs from a backslash to a `}` |
| Matchers.SetBracedAt | translate_arxiv/process_latex.py:45 | `patternSet2` runs from a backslash to a `}` |
| Matchers.EndTagAt | translate_arxiv/process_latex.py:17 | `\end{name}` ends on a `}` |
| Matchers.FindEndTag | translate_arxiv/process_latex.py:17 | the lazy `(.*?)\\end{\1}` stops at the first matching end tag |
| Matchers.BeginTagAt | translate_arxiv/process_latex.py:17 | `\begin{name}` starts with a backslash |
| Matchers.EnvPartsAt | translate_arxiv/process_latex.py:17 | an environment match starts with a backslash, and its options come right before its content |
| Matchers.MatchAt | translate_arxiv/process_latex.py:124-136 | any object pattern matches a non-empty span starting at a markup character |
| Matchers.FirstSome | translate_arxiv/process_latex.py:143 | the first position from which a match exists |
| Matchers.FirstSomeSpec | translate_arxiv/process_latex.py:143 | no earlier position matches, and none matches if the result is missing |
| Matchers.Matches | translate_arxiv/process_latex.py:143 | one match attempt per position, the end included |
| Matchers.Search | translate_arxiv/process_latex.py:143-144 | `pattern.search` returns a non-empty span starting at a markup character |
| Matchers.SearchSpec | translate_arxiv/process_latex.py:143-144 | the result is the leftmost match, and is missing only if no position matches |
| Extract.ObjectPatterns | translate_arxiv/process_latex.py:123-136 | the patterns in the order they are tried: `$$`, `$`, `\[`, `\(`, environments, the two `\set` forms, each multi-argument command, a general command, then the brace group and the simple command when enabled |
| Extract.MarkupCountAppend | translate_arxiv/process_latex.py:141-147 | the markup count of a concatenation is the sum of the parts' counts |
| Extract.MarkupCountNone | translate_arxiv/process_latex.py:141-147 | text without markup characters has count 0 |
| Extract.PlaceholderMarkupFree | translate_arxiv/process_latex.py:146 | a padded placeholder holds no markup character |
| Extract.SubstituteShrinks | translate_arxiv/process_latex.py:143-146 | replacing a match by a placeholder lowers the markup count, so each `while pattern.search` loop ends |
| Extract.ExtractInvSkip | translate_arxiv/process_latex.py:141-143 | moving on to the next pattern when the current one no longer matches keeps the extraction invariant |
| Extract.ExtractInvHit | translate_arxiv/process_latex.py:143-147 | replacing the leftmost match by the next placeholder and recording ` obj ` keeps the invariant |
| Extract.ExtractLoop | translate_arxiv/process_latex.py:139-147 | the nested loops leave the text and the object list `ExtractAll` describes |
| Extract.ReplaceLatexObjects | translate_arxiv/process_latex.py:111-150 | the result is the extracted text with `modify_before` applied outside placeholders, and the objects in extraction order |
| Extract.ModifyBeforePlain | translate_arxiv/process_latex.py:96-101 | prose without `\pm` and `Eq.` is left as it is by `modify_before` |
| Recover.EscapeEscapes | translate_arxiv/process_latex.py:104-108 | after `(?<!\\)_` becomes `\_` every underscore is escaped, and the text ends in a backslash exactly when it did before |
| Recover.EscapeKeepsEscaped | translate_arxiv/process_latex.py:104-108 | text whose underscores are all escaped is unchanged |
| Recover.ModifyAfterIdempotent | translate_arxiv/process_latex.py:104-108 | `modify_after` leaves every underscore escaped, and applying it twice is applying it once |
| Recover.TokenAt | translate_arxiv/process_latex.py:10 | `matchCodeReplace` matches at a position exactly when the math code and `_` occur there |
| Recover.NextToken | translate_arxiv/process_latex.py:173 | the next match lies between the position and the end |
| Recover.NextTokenFound | translate_arxiv/process_latex.py:173 | a match exists where the scan stops before the end |
| Recover.NextTokenFirst | translate_arxiv/process_latex.py:173 | no match starts before it |
| Recover.TokensAtNext | translate_arxiv/process_latex.py:173 | the matches from a position are those from the next match |
| Recover.TokensMatchStep | translate_arxiv/process_latex.py:173 | matching resumes after the end of a match |
| Recover.TokensSkipStep | translate_arxiv/process_latex.py:173 | a position where nothing matches adds nothing |
| Recover.GroupTailShift | translate_arxiv/process_latex.py:10 | a digit run in a suffix ends at the same place in the whole text |
| Recover.MatchFromShift | translate_arxiv/process_latex.py:10 | a literal matches in a suffix exactly when it matches at the shifted position |
| Recover.TokenAtShift | translate_arxiv/process_latex.py:10 | a match in a suffix is the same match in the whole text, shifted |
| Recover.TokenAtShiftDigits | translate_arxiv/process_latex.py:10 | the same when the sentinel is followed by a digit |
| Recover.TokensShift | translate_arxiv/process_latex.py:173 | the matches in a suffix are the whole text's matches from that point |
| Recover.TokensShiftSkip | translate_arxiv/process_latex.py:173 | the same, at a position without a match |
| Recover.TokensShiftAtMatch | translate_arxiv/process_latex.py:173 | the same, at a match |
| Recover.SentinelNoBlocker | translate_arxiv/process_latex.py:9-10 | the math code and `_` hold no space or `?`, the characters that separate an object from its neighbours |
| Recover.GroupTailPrefix | translate_arxiv/process_latex.py:10 | a digit run stops before a separator, so what follows cannot extend it |
| Recover.SentinelAtPrefix | translate_arxiv/process_latex.py:10 | a sentinel starting before a separator lies wholly before it |
| Recover.StraddleImpossible | translate_arxiv/process_latex.py:10 | no sentinel straddles a separator |
| Recover.TokenAtPrefix | translate_arxiv/process_latex.py:10 | a match starting in the first part is the same match in the first part alone |
| Recover.TokensAppend | translate_arxiv/process_latex.py:173 | the matches of two separated parts are the matches of each, in order |
| Recover.TokensAppendSkip | translate_arxiv/process_latex.py:173 | the same, at a position without a match |
| Recover.TokensAppendAtMatch | translate_arxiv/process_latex.py:173 | the same, at a match |
| Recover.TokensNone | translate_arxiv/process_latex.py:173-176 | without a sentinel there is no match |
| Recover.TokensEmpty | translate_arxiv/process_latex.py:173-176 | there is no match exactly when there is no sentinel |
| Recover.UnknownMarkerNoTokens | translate_arxiv/process_latex.py:166 | the `???` stand-in holds no placeholder |
| Recover.GapNoTokens | translate_arxiv/process_latex.py:173 | the text between two matches holds no match |
| Restore.GetObj | translate_arxiv/process_latex.py:158-167 | an index below the object count gives that object, any other gives `???`; the call fails exactly in the test environment without tolerance for a bad index |
| Restore.Somes | translate_arxiv/process_latex.py:159-160 | every decoded index is recorded |
| Restore.TokensAtMatch | translate_arxiv/process_latex.py:173 | the first match found is followed by the matches after it |
| Restore.SubPassFails | translate_arxiv/process_latex.py:164-173 | one `subn` pass fails exactly when one of its matches is rejected |
| Restore.SubPassIndices | translate_arxiv/process_latex.py:159-173 | a pass records exactly the indices of the matches it replaced, in order |
| Restore.SubPassNoMatch | translate_arxiv/process_latex.py:173-176 | a pass over text without a match changes nothing and records nothing |
| Restore.ObjWeight | translate_arxiv/process_latex.py:172-176 | each object has a positive weight |
| Restore.Cost | translate_arxiv/process_latex.py:172-176 | each match has a positive cost |
| Restore.CostSumAppend | translate_arxiv/process_latex.py:172-176 | costs add up over concatenated match lists |
| Restore.WeightSumCostSum | translate_arxiv/process_latex.py:172-176 | the weight of earlier objects is the cost of their matches |
| Restore.ObjectCost | translate_arxiv/process_latex.py:172-176 | with objects nested only in later ones, an object costs one more than the placeholders inside it |
| Restore.ReplacementCost | translate_arxiv/process_latex.py:158-167 | a replacement is delimited by spaces or `?` and costs one less than the placeholder it replaces |
| Restore.ReplacedCost | translate_arxiv/process_latex.py:173 | splicing a delimited replacement into text adds its cost and nothing else |
| Restore.PassWeight | translate_arxiv/process_latex.py:173 | after a pass the remaining cost plus the number of replacements is the cost before |
| Restore.AfterAfter | translate_arxiv/process_latex.py:159-174 | recording two rounds of matches is recording them together |
| Restore.AfterStep | translate_arxiv/process_latex.py:174 | one round's record composes with the rest |
| Restore.RecoverFromDone | translate_arxiv/process_latex.py:172-176 | when the loop stops no placeholder is left, and the total replaced is the number of indices recorded |
| Restore.RecoverFromPlain | translate_arxiv/process_latex.py:172-176 | text without placeholders comes back unchanged with nothing recorded |
| Restore.RecoverFromStep | translate_arxiv/process_latex.py:172-176 | a pass that replaced something strictly lowers the weight, so the `while True` loop ends, and the result is that pass followed by the rest |
| Restore.PassesErr | translate_arxiv/process_latex.py:164-165 | a rejected index ends the loop with the failure |
| Restore.PassesStop | translate_arxiv/process_latex.py:175-176 | a pass that replaced nothing ends the loop |
| Restore.PassesStep | translate_arxiv/process_latex.py:173-174 | a pass that replaced something goes on with the new text |
| Restore.PassTurn | translate_arxiv/process_latex.py:172-176 | each loop step is one of those three |
| Restore.Passes | translate_arxiv/process_latex.py:172-176 | the `while True` loop computes `RecoverFrom` |
| Restore.RecoverLatexObjects | translate_arxiv/process_latex.py:153-181 | on nested objects the loop ends; it fails exactly when a bad index is rejected; otherwise the text has no placeholder left, `nBad` is the mismatch count of the recorded indices and `nobjs` the object count |
| Mismatch.Range | translate_arxiv/process_latex.py:177 | `range(nobjs)` lists `0 .. nobjs-1` |
| Mismatch.Below | translate_arxiv/process_latex.py:177 | `set(range(nobjs))` holds exactly the numbers below `nobjs` |
| Mismatch.BelowCard | translate_arxiv/process_latex.py:177 | that set has `nobjs` members |
| Mismatch.SubsetCard | translate_arxiv/process_latex.py:177 | a subset is no larger, and equal in size only when equal |
| Mismatch.ElementsCard | translate_arxiv/process_latex.py:177 | the set of matched indices is no larger than the list, and as large only when the list has no repeat |
| Mismatch.DistinctMultiplicity | translate_arxiv/process_latex.py:177 | in a list without repeats each element occurs once |
| Mismatch.GoodBounds | translate_arxiv/process_latex.py:177 | `nGood` is at most the object count and at most the number of matches |
| Mismatch.NBadNonNegative | translate_arxiv/process_latex.py:177-180 | `nBad` is never negative |
| Mismatch.NBadZero | translate_arxiv/process_latex.py:177-180 | `nBad` is 0 exactly when every object was put back exactly once and nothing else was matched |
| LatexDoc.SplitLatexDocumentSpec | translate_arxiv/process_latex.py:201-213 | the split fails exactly when `\begin{document}` or `\end{document}` is missing or the last end tag is not after the first begin tag; otherwise the preamble ends after the first begin tag, the postamble starts at the last end tag, and the three parts concatenate to the text |
| LatexDoc.ThreePieces | translate_arxiv/process_latex.py:210-212 | the three slices put back together give the text |
| LatexDoc.SplitDocumentRoundTrip | translate_arxiv/process_latex.py:201-213 | a successful split concatenates back to the document |
| LatexDoc.NoOverlap | translate_arxiv/process_latex.py:208-211 | a begin tag before an end tag ends before it starts, so the body slice is well formed |
| LatexDoc.DeclarationAt | translate_arxiv/process_latex.py:334 | a `\documentclass`/`\documentstyle` match ends on a `}` after the keyword |
| LatexDoc.Declarations | translate_arxiv/process_latex.py:334 | one match attempt per position |
| LatexDoc.SearchDeclaration | translate_arxiv/process_latex.py:334 | a found declaration spans at least its keyword |
| LatexDoc.SearchDeclarationSpec | translate_arxiv/process_latex.py:339 | the search finds the leftmost declaration, and none exactly when no position matches |
| LatexDoc.FindContains | translate_arxiv/process_latex.py:343-350 | `find` returns a position exactly when the pattern occurs |
| LatexDoc.IsCompleteSpec | translate_arxiv/process_latex.py:332-358 | complete exactly when a declaration, a begin tag and an end tag occur, the first begin tag is not before the declaration ends, and the end of the first end tag is not before the first begin tag |
| LatexDoc.IsCompleteAdmitsFailedSplit | translate_arxiv/process_latex.py:332-358 | `\documentclass{}\end{document}\begin{document}` passes `is_complete`, yet splitting it fails |
| LatexDoc.IsCompleteStrictSplits | translate_arxiv/process_latex.py:201-213 | with the order check written on the start of the end tag, every complete document splits |
| LatexDoc.EndBeforeBeginDeclaration | translate_arxiv/process_latex.py:334 | in the counterexample the declaration is its first 16 characters |
| LatexDoc.EndBeforeBeginBackslashes | translate_arxiv/process_latex.py:335-336 | the counterexample has backslashes only at 0, 16 and 30 |
| LatexDoc.EndBeforeBeginNoTag | translate_arxiv/process_latex.py:335-336 | no tag starts anywhere else |
| LatexDoc.EndBeforeBeginBegin | translate_arxiv/process_latex.py:343 | its begin tag is at 30 |
| LatexDoc.EndBeforeBeginEnd | translate_arxiv/process_latex.py:349 | its end tag is at 16 |
| LatexDoc.EndBeforeBeginNoLaterEnd | translate_arxiv/process_latex.py:207 | no end tag follows position 16 |
| LatexDoc.EndBeforeBeginLastEnd | translate_arxiv/process_latex.py:207 | `rfind` finds the end tag at 16 |
| LatexDoc.InsertMacroSpec | translate_arxiv/process_latex.py:323-329 | without a declaration the call fails; otherwise `\n macro \n` is inserted right after the first declaration and removing it gives the text back |
| LatexDoc.NewlinesEnd | translate_arxiv/process_latex.py:318 | a run of line breaks is greedy |
| LatexDoc.ThinnedNewlineRun | translate_arxiv/process_latex.py:318-319 | a run of line breaks thins to one |
| LatexDoc.RemoveBlankLinesSpec | translate_arxiv/process_latex.py:317-320 | the result is the text with only line breaks removed, has no two line breaks in a row, is empty only for empty text, and keeps the first character |
| LatexDoc.RemoveBlankLinesFixed | translate_arxiv/process_latex.py:317-320 | text without a blank line is unchanged |
| LatexDoc.RemoveBlankLinesIdempotent | translate_arxiv/process_latex.py:317-320 | removing blank lines twice is doing it once |
| LatexDoc.TheoremAt | translate_arxiv/process_latex.py:46 | a `\newtheorem{name}` match starts with the keyword and its name is a braced, non-empty part of the text |
| LatexDoc.BracedName | translate_arxiv/process_latex.py:46 | the lazy `(.+?)\}` takes at least one character and stops at the first closing brace after it |
| LatexDoc.NoCloseBefore | translate_arxiv/process_latex.py:46 | no closing brace comes before the one found |
| LatexDoc.BracedOccurs | translate_arxiv/process_latex.py:46 | the name occurs between braces |
| LatexDoc.GetTheorems | translate_arxiv/process_latex.py:361-365 | each theorem name is non-empty, holds no `}` after its first character, and occurs in braces in the text |
| LatexDoc.GetTheoremsNone | translate_arxiv/process_latex.py:361-365 | no `\newtheorem` means no name |
| LatexDoc.NonNoneSpec | translate_arxiv/process_latex.py:369 | the list of non-`None` arguments is empty exactly when all are `None`, and a singleton exactly when one is not |
| LatexDoc.GetNonNoneSpec | translate_arxiv/process_latex.py:368-371 | the assertion passes exactly when one argument is not `None`, and the result is that argument |
| LatexDoc.SpacesEnd | translate_arxiv/process_latex.py:420 | `\s*` is greedy |
| LatexDoc.WordEnd | translate_arxiv/process_latex.py:420 | `[^\s]+` is greedy |
| LatexDoc.Combine | translate_arxiv/process_latex.py:420-429 | the only change is some line breaks becoming spaces |
| LatexDoc.BreaksOnlyAppend | translate_arxiv/process_latex.py:420-429 | a match replaced by itself or by a space plus its tail composes with the rest |
| LatexDoc.CombineSkip | translate_arxiv/process_latex.py:420-429 | a position where the pattern cannot match is copied |
| LatexDoc.CombineStep | translate_arxiv/process_latex.py:422-427 | at a match the line break stays when the next word starts with the math code and becomes a space otherwise; the word is copied and scanning resumes after it |
| LatexDoc.CombineSplitToSentences | translate_arxiv/process_latex.py:416-429 | the text keeps its length and each character is kept, except that some line breaks become spaces |
| LatexDoc.CombineKeepsSentinelBreak | translate_arxiv/process_latex.py:424-425 | a line break before a word starting with the math code is kept |
| LatexDoc.CombineKeepsSentinelBreakAtMatch | translate_arxiv/process_latex.py:424-425 | the same, when scanning starts at a match |
| LatexDoc.CombineKeepsSentinelBreakSkip | translate_arxiv/process_latex.py:424-425 | the same, when scanning starts elsewhere |
| LatexDoc.PastStep | translate_arxiv/process_latex.py:420 | a break preceded by a non-space is not inside the previous match |
| LatexDoc.CombineJoinsLines | translate_arxiv/process_latex.py:426-427 | a single line break between two words, the second not a placeholder, becomes a space |
| LatexDoc.CombineJoinsLinesAtMatch | translate_arxiv/process_latex.py:426-427 | the same, when scanning starts at a match |
| LatexDoc.CombineJoinsLinesSkip | translate_arxiv/process_latex.py:426-427 | the same, when scanning starts elsewhere |
| LatexDoc.DropComments | translate_arxiv/process_latex.py:194 | no `%` is left before a later line break: every comment that ends at a line break is gone |
| LatexDoc.RemoveTexComments | translate_arxiv/process_latex.py:184-198 | the result is `\\` and `\%` protected, comment lines then comments dropped, and the protections undone; no `%` that is not escaped is left with a line break after it |
| LatexDoc.UnprotectCommentFree | translate_arxiv/process_latex.py:193-198 | after the comment regexes and the undoing of the protections, every `%` followed later by a line break is preceded by a backslash |
| LatexDoc.ReplaceAllCommentFree | translate_arxiv/process_latex.py:197-198 | undoing a protection whose text has no `%`, into a text whose `%` are escaped, leaves every `%` escaped |
| LatexDoc.RemoveTexCommentsEscapesKept | translate_arxiv/process_latex.py:184-198 | with a placeholder code that cannot be confused with the text, a document whose only `%` are escaped comes back unchanged, its `\%` kept |
| LatexDoc.DropCommentLinesNone | translate_arxiv/process_latex.py:193 | text without `%` loses no line |
| LatexDoc.DropCommentsNone | translate_arxiv/process_latex.py:194 | text without `%` loses nothing |
| LatexDoc.NotContainsChar | translate_arxiv/process_latex.py:191-196 | a pattern holding a character the text lacks does not occur |
| LatexDoc.RemoveTexCommentsPlain | translate_arxiv/process_latex.py:184-198 | text without `%`, backslashes or protection markers comes back unchanged |
| Escapes.BackwardForward | translate_arxiv/process_latex.py:51-70 | decoding the code of a character gives the character |
| Escapes.ForwardBackward | translate_arxiv/process_latex.py:51-70 | encoding a decoded code gives the code |
| Escapes.ForwardInjective | translate_arxiv/process_latex.py:71 | distinct characters have distinct codes |
| Escapes.ForwardCodes | translate_arxiv/process_latex.py:51-69 | every code is two upper-case letters |
| Escapes.ListSpecialCoded | translate_arxiv/process_latex.py:49-69 | every character of `listSpecial` has a code |
| Escapes.ListSpecialDistinct | translate_arxiv/process_latex.py:49 | `listSpecial` has no repeat |
| Escapes.ReplaceAllHead | translate_arxiv/process_latex.py:377 | the first character of a replacement result |
| Escapes.ReplaceEscapes | translate_arxiv/process_latex.py:375-377 | after replacing `\x`, no escape of `x` (or of earlier characters) is left |
| Escapes.ReplaceSpecial | translate_arxiv/process_latex.py:374-379 | the loop applies each replacement in list order, and afterwards no escaped special character is left |
| Escapes.SpecialChainPlain | translate_arxiv/process_latex.py:374-379 | text without backslashes is unchanged |
| Escapes.NotContainsFirst | translate_arxiv/process_latex.py:384 | a pattern whose first character is missing does not occur |
| Escapes.RecoverSpecial | translate_arxiv/process_latex.py:382-386 | the loop applies each reverse replacement in list order |
| Escapes.NoUpperNoCode | translate_arxiv/process_latex.py:384 | text without capitals holds no code |
| Escapes.TokenOtherCode | translate_arxiv/process_latex.py:377-384 | the token of one character holds no other character's code |
| Escapes.TokenOwnCode | translate_arxiv/process_latex.py:377-384 | the token of a character recovers to ` \c ` |
| Escapes.RecoverChainTokenBefore | translate_arxiv/process_latex.py:383-384 | earlier reverse replacements leave the token alone |
| Escapes.RecoverChainTokenAfter | translate_arxiv/process_latex.py:383-384 | once its own replacement has run the token is ` \c `, and later ones leave it |
| Escapes.RecoverSpecialToken | translate_arxiv/process_latex.py:374-386 | `recover_special(replace_special("\c"))` is `\c` padded with spaces |
| Escapes.RecoverChainPlain | translate_arxiv/process_latex.py:382-386 | text without the math code is unchanged |
| Escapes.AccentAt | translate_arxiv/process_latex.py:47 | an accent match is a backslash, an accent mark and a letter, braced or not |
| Escapes.AccentsCoded | translate_arxiv/process_latex.py:47-69 | every accent mark has a code |
| Escapes.RecoverAccent | translate_arxiv/process_latex.py:405-413 | it fails only on a two-capital code that names no character (a `KeyError`) |
| Escapes.ReplaceAccentPlain | translate_arxiv/process_latex.py:389-402 | text without backslashes is unchanged |
| Escapes.RecoverAccentPlain | translate_arxiv/process_latex.py:405-413 | text without the math code is unchanged |
| Escapes.ReplaceAccentToken | translate_arxiv/process_latex.py:389-402 | `\"o` and `\"{o}` both become the math code, the accent's code and the letter |
| Escapes.RecoverAccentToken | translate_arxiv/process_latex.py:389-413 | recovering a replaced accent gives the braced form `\"{o}` |
| Rewriters.CommandPartsAt | translate_arxiv/process_latex.py:20-33 | a `\name[opts]{content}` match: the backslash and the name come first, the options lie before the opening brace, and the content ends just before the closing brace |
| Rewriters.CommandPartsAgree | translate_arxiv/process_latex.py:20-33 | the group spans agree with the plain matcher: both match or neither does, ending at the same place |
| Rewriters.ArgSpans | translate_arxiv/process_latex.py:28-30 | `n` braced arguments give `n` content spans, in order |
| Rewriters.ArgSpansAgree | translate_arxiv/process_latex.py:28-30 | the argument spans agree with the plain matcher |
| Rewriters.ArgsPartsAt | translate_arxiv/process_latex.py:20-33 | a multi-argument match starts with a backslash and holds `n` argument spans |
| Rewriters.ArgsPartsAgree | translate_arxiv/process_latex.py:20-33 | those spans agree with the plain matcher |
| Rewriters.Arguments | translate_arxiv/process_latex.py:261-265 | one argument per span |
| Rewriters.EnvRewrite | translate_arxiv/process_latex.py:216-230 | an environment rewrite replaces a non-empty span starting at a backslash |
| Rewriters.CommandRewrite | translate_arxiv/process_latex.py:233-247 | a command rewrite replaces a non-empty span starting at a backslash |
| Rewriters.MulargRewrite | translate_arxiv/process_latex.py:250-268 | a multi-argument rewrite replaces a non-empty span starting at a backslash |
| Rewriters.DeleteRewrite | translate_arxiv/process_latex.py:432-434 | a format deletion replaces a non-empty span starting at a backslash |
| Rewriters.NewcommandRewrite | translate_arxiv/process_latex.py:437-450 | a macro expansion replaces a non-empty span starting at a backslash |
| Rewriters.BibnoteRewrite | translate_arxiv/process_latex.py:484-493 | a `\bibinfo` match is deleted or kept as it is |
| Rewriters.RewriteAt | translate_arxiv/process_latex.py:216-493 | every rewrite replaces a non-empty span starting at a backslash |
| Rewriters.Rewrites | translate_arxiv/process_latex.py:230 | the match table only holds rewrites that fit the text |
| Rewriters.SubPlain | translate_arxiv/process_latex.py:230 | `pattern.sub` over text without backslashes returns it unchanged |
| Rewriters.SubFromPlain | translate_arxiv/process_latex.py:230 | the same for every rewriter |
| Rewriters.SubIdentity | translate_arxiv/process_latex.py:230 | a substitution that puts back each match's own text changes nothing |
| Rewriters.SubShrinks | translate_arxiv/process_latex.py:490 | replacements no longer than their matches never lengthen the text |
| Rewriters.BeginTagFacts | translate_arxiv/process_latex.py:17 | a `\begin{name}` match is the keyword, blanks, then `{name}` |
| Rewriters.EnvPartsFacts | translate_arxiv/process_latex.py:17 | options or content start after the blanks following the begin tag, and the content ends at the end tag |
| Rewriters.EnvRewriteOf | translate_arxiv/process_latex.py:221-229 | the replacement is `\begin{name}` + options + `function(content)` + `\end{name}` with the name written back as the source writes it |
| Rewriters.EndTagFacts | translate_arxiv/process_latex.py:17 | a `\end{name}` match is the keyword, blanks, then `{name}` |
| Rewriters.BeginSlice | translate_arxiv/process_latex.py:17 | a begin tag without blanks is the literal `\begin{name}` |
| Rewriters.EndSlice | translate_arxiv/process_latex.py:17 | an end tag without blanks is the literal `\end{name}` |
| Rewriters.EnvSlices | translate_arxiv/process_latex.py:17 | an environment is its begin tag, options, content and end tag |
| Rewriters.EnvKeeps | translate_arxiv/process_latex.py:216-230 | with the identity function a tight environment is rewritten to itself |
| Rewriters.CommandStarredChanges | translate_arxiv/process_latex.py:246 | for a starred command such as `section*` the rewrite writes `\section\*`, so the text changes even with the identity function |
| Rewriters.CommandRewriteOf | translate_arxiv/process_latex.py:238-246 | the replacement is `\name` + options + `{function(content)}` |
| Rewriters.StarredCommandHead | translate_arxiv/process_latex.py:246 | the written head of a starred command holds `name\*` |
| Rewriters.EnvStarredChanges | translate_arxiv/process_latex.py:229 | for a starred environment the rewrite writes `\begin{name\*}`, which differs from the matched text |
| Rewriters.StarDiffers | translate_arxiv/process_latex.py:229 | texts that differ at the brace or the star are different |
| Rewriters.EnvStarredWritten | translate_arxiv/process_latex.py:229 | a starred environment always matches and is written with `\*` |
| Rewriters.EnvStarredMatched | translate_arxiv/process_latex.py:17 | the matched begin tag holds `*` where the written one holds a backslash |
| Rewriters.StarredHead | translate_arxiv/process_latex.py:229 | the written starred begin tag holds `name\*` |
| Rewriters.CommandKeeps | translate_arxiv/process_latex.py:233-247 | with the identity function a tight command is rewritten to itself |
| Rewriters.CommandText | translate_arxiv/process_latex.py:246 | a tight command is its head, options and braced content |
| Rewriters.Contents | translate_arxiv/process_latex.py:262 | each argument is the text of its span |
| Rewriters.ArgSpansStep | translate_arxiv/process_latex.py:28-30 | the first argument's span comes before the rest |
| Rewriters.ContentsCons | translate_arxiv/process_latex.py:267 | re-bracing the arguments is bracing the first then the rest |
| Rewriters.BraceSlices | translate_arxiv/process_latex.py:16 | a braced group is `{`, its content, `}` |
| Rewriters.SameGroup | translate_arxiv/process_latex.py:267 | equal tails give equal groups |
| Rewriters.BracedJoin | translate_arxiv/process_latex.py:267 | re-bracing the arguments rebuilds the text they came from |
| Rewriters.BracedTight | translate_arxiv/process_latex.py:267 | without blanks between arguments, re-bracing them rebuilds the matched text |
| Rewriters.MulargRewriteOf | translate_arxiv/process_latex.py:256-267 | the replacement is `\name` followed by each argument in braces, translated only when selected |
| Rewriters.ArgumentsIdentity | translate_arxiv/process_latex.py:261-265 | with the identity function the arguments are the spans' texts |
| Rewriters.CommandHeadSlice | translate_arxiv/process_latex.py:21 | a matched command starts with `\name` |
| Rewriters.SliceJoin | translate_arxiv/process_latex.py:267 | adjacent slices join |
| Rewriters.TightCommandText | translate_arxiv/process_latex.py:267 | a tight multi-argument command is `\name` and its braced arguments |
| Rewriters.MulargKeeps | translate_arxiv/process_latex.py:250-268 | with the identity function a tight multi-argument command is rewritten to itself |
| Rewriters.NestingSlice | translate_arxiv/process_latex.py:16 | brace depth within a slice is the depth within the text |
| Rewriters.NestingPrefix | translate_arxiv/process_latex.py:16 | brace depth of a prefix is the depth within the text |
| Rewriters.NestingAppend | translate_arxiv/process_latex.py:16 | brace depth adds up over concatenation |
| Rewriters.BraceOfCommand | translate_arxiv/process_latex.py:16-30 | a command's content group is a balanced braced group |
| Rewriters.BracedContentBalanced | translate_arxiv/process_latex.py:16 | the content of a braced group has balanced braces |
| Rewriters.PaddedBalanced | translate_arxiv/process_latex.py:434 | padding balanced content with spaces keeps it balanced |
| Rewriters.DeleteFormatBalanced | translate_arxiv/process_latex.py:432-434 | `delete_specific_format` replaces a match with its content between spaces, which has balanced braces |
| Rewriters.ExpandNoHash | translate_arxiv/process_latex.py:445-447 | a macro body without `#` is inserted as it is |
| Rewriters.RemoveBibnoteDeletes | translate_arxiv/process_latex.py:484-493 | `remove_bibnote` never lengthens the text, and changes nothing when no `\bibinfo{note}` matches |
| Rewriters.ProcessSpecificEnvKeeps | translate_arxiv/process_latex.py:216-230 | `process_specific_env` with the identity function leaves a document whose matches are all tight unchanged |
| Rewriters.ProcessSpecificCommandKeeps | translate_arxiv/process_latex.py:233-247 | `process_specific_command` with the identity function leaves a document whose matches are all tight unchanged |
| Rewriters.ProcessMulargCommandKeeps | translate_arxiv/process_latex.py:250-268 | `process_mularg_command` with the identity function leaves a document unchanged when no match has blanks between its arguments |
| Rewriters.ProcessSpecificCommandOne | translate_arxiv/process_latex.py:233-247 | in a document holding one use `\name{x}` and no other backslash, the use becomes `\name{function(x)}` and the rest is kept |
| Rewriters.DeleteSpecificFormatOne | translate_arxiv/process_latex.py:432-434 | in a document holding one use `\name{x}` and no other backslash, the use becomes ` x ` and the rest is kept |
| Rewriters.DeleteSpecificFormatAlone | translate_arxiv/process_latex.py:432-434 | a lone `\name{x}` becomes ` x ` |
| Rewriters.DeleteFormatNestedSurvives | translate_arxiv/process_latex.py:432-434 | one pass of `pattern.sub` unwraps only the outer use: `\name{\name{x}}` becomes ` \name{x} `, so a format command can remain |
| Rewriters.ReplaceNewcommandOne | translate_arxiv/process_latex.py:437-450 | in a document holding one use `\name{x}` of a one-argument macro and no other backslash, the use becomes the template with ` x ` in place of `#1` |
| Newcommands.KeywordAt | translate_arxiv/process_latex.py:42 | a match starts with `\newcommand` or `\def` |
| Newcommands.MacroNameAt | translate_arxiv/process_latex.py:42 | the macro name is a non-empty run of letters |
| Newcommands.ArgCountAt | translate_arxiv/process_latex.py:42 | the argument count is one digit in brackets |
| Newcommands.CountEnd | translate_arxiv/process_latex.py:469-473 | a missing count is 0 |
| Newcommands.BodyAt | translate_arxiv/process_latex.py:42 | the whole match is recorded with its name and count |
| Newcommands.NewcommandAt | translate_arxiv/process_latex.py:42 | a definition match is the recorded text, with a non-empty name and a count below 10 |
| Newcommands.NewcommandTable | translate_arxiv/process_latex.py:457 | the match table only holds matches that fit the text |
| Newcommands.CollectFrom | translate_arxiv/process_latex.py:457 | every definition found is non-empty |
| Newcommands.Definitions | translate_arxiv/process_latex.py:457 | `finditer` finds only non-empty definitions |
| Newcommands.CollectFromOccurs | translate_arxiv/process_latex.py:457 | every definition found occurs in the text |
| Newcommands.DefinitionsOccur | translate_arxiv/process_latex.py:457 | the same from the start of the text |
| Newcommands.NewcommandCode | translate_arxiv/process_latex.py:475 | the stand-in for a definition is non-empty |
| Newcommands.Mentions | translate_arxiv/process_latex.py:459-465 | the inner loop sets `needReplace` exactly when one of the listed names occurs in the definition |
| Newcommands.SetAsideLoop | translate_arxiv/process_latex.py:458-478 | the loop hides each selected definition behind its stand-in, expands its uses, and records its text |
| Newcommands.PutBackLoop | translate_arxiv/process_latex.py:479-480 | the second loop puts each recorded definition back in place of its stand-in |
| Newcommands.ProcessNewcommands | translate_arxiv/process_latex.py:453-481 | the result is the definitions set aside, their uses expanded, then put back |
| Newcommands.NothingSelectedAside | translate_arxiv/process_latex.py:464-465 | when no definition mentions a listed name nothing is set aside |
| Newcommands.NothingSelectedUnchanged | translate_arxiv/process_latex.py:453-481 | then the text comes back unchanged |
| Rewriters.NestingFront | translate_arxiv/process_latex.py:16 | brace depth counts the first character then the rest |
| Rewriters.CloseFromBalanced | translate_arxiv/process_latex.py:16 | the scan ends at the brace that closes the group |
| Rewriters.BraceAroundBalanced | translate_arxiv/process_latex.py:16 | balanced content between braces matches as one group |
| Newcommands.LettersEndAt | translate_arxiv/process_latex.py:42 | the letter run ends at the first non-letter |
| Newcommands.RenderChars | translate_arxiv/process_latex.py:42 | the layout of a rendered `\newcommand{\name}[n]{...}` |
| Newcommands.RenderHead | translate_arxiv/process_latex.py:42 | the pattern reads the keyword, the name and the count of a rendered definition |
| Newcommands.ParseLayout | translate_arxiv/process_latex.py:42 | a definition laid out this way is matched whole, with its name, count and body |
| Newcommands.ParseRender | translate_arxiv/process_latex.py:42 | rendering a definition and matching it gives the definition back, whatever follows it |
| Newcommands.DefinitionsOneUse | translate_arxiv/process_latex.py:457 | a document made of one definition and one use of its macro holds that definition and no other |
| Newcommands.ProcessOneDefinition | translate_arxiv/process_latex.py:453-481 | with one selected definition, the placeholder that stood for it gives way to the definition again after the expansion |
| Newcommands.ProcessNewcommandsOneUse | translate_arxiv/process_latex.py:453-481 | for a selected one-argument definition followed by one use, the definition is put back as it was and the use is expanded with its argument in place of `#1` |
| Paragraphs.ConnectedKeepsFirst | translate_arxiv/process_text.py:4-8 | whether two lines join depends only on the first character of the lower line |
| Paragraphs.ThinnedCut | translate_arxiv/process_text.py:18-19 | removing one separator is a thinning |
| Paragraphs.MergeThins | translate_arxiv/process_text.py:18-19 | merging two adjacent lines removes exactly the line break between them |
| Paragraphs.ConnectParagraphs | translate_arxiv/process_text.py:11-22 | the result is `Connect(text)`: the input with some line breaks removed, no more lines, and no two adjacent result lines still satisfying `is_connected` |
| Paragraphs.ConnectFrom | translate_arxiv/process_text.py:13-21 | the loop over the remaining lines always leaves at least one line |
| Paragraphs.ConnectSpec | translate_arxiv/process_text.py:11-22 | `Connect` only removes line breaks, never adds lines, and leaves no connected pair of adjacent lines |
| Paragraphs.ConnectUnconnected | translate_arxiv/process_text.py:11-22 | a text in which no line continues the one above comes back unchanged |
| Paragraphs.ConnectJoinsFirst | translate_arxiv/process_text.py:15-18 | when the second line continues the first, the break between them is removed and the rest is processed as if they had been one line |
| Paragraphs.ConnectFromUnconnected | translate_arxiv/process_text.py:13-21 | lines of which none continues the previous are kept as they are |
| Paragraphs.ConnectFromThins | translate_arxiv/process_text.py:13-21 | the loop yields no more lines than it was given, none with a newline, and their join is the input's join with some breaks removed |
| Paragraphs.ConnectFromSeparated | translate_arxiv/process_text.py:13-21 | no two adjacent lines of the loop's result satisfy `is_connected` |
| Paragraphs.ConnectMergeStep | translate_arxiv/process_text.py:16-18 | merging a connected pair and going on gives the same lines as the loop at that pair |
| Paragraphs.ConnectKeepStep | translate_arxiv/process_text.py:19-20 | keeping a line that the next does not continue gives the same lines as the loop at that line |
| Paragraphs.IsTitle | translate_arxiv/process_text.py:54-58 | a line pair taken for a title is never a connected pair, since the lower line starts with a capital |
| Paragraphs.SplitHead | translate_arxiv/process_text.py:26 | the first piece of a split is a prefix ending at the separator or the end |
| Paragraphs.LeadingSpaces | translate_arxiv/process_text.py:26-29 | the leading spaces run up to the first non-space |
| Paragraphs.GetFirstWordSpec | translate_arxiv/process_text.py:25-30 | the first word is empty exactly for an all-space line; otherwise it is the run of non-spaces after the leading spaces, ending at a space or the end |
| Paragraphs.Argmax | translate_arxiv/process_text.py:33-34 | `array.index(max(array))`: a largest entry, the first on ties |
| Paragraphs.FirstLengths | translate_arxiv/process_text.py:42-43 | one length per sentence |
| Paragraphs.JoinLength | translate_arxiv/process_text.py:46-47 | a join is at least as long as its first part |
| Paragraphs.CutHalves | translate_arxiv/process_text.py:46-47 | cutting at a sentence that starts with a capitalised word gives two non-empty, strictly shorter halves that concatenate to the paragraph |
| Paragraphs.AllLinesShortJoin | translate_arxiv/process_text.py:48-51 | joining texts whose lines are short keeps every line short |
| Paragraphs.ThinnedJoin | translate_arxiv/process_text.py:48-51 | thinnings joined by a line break are a thinning of the joined inputs |
| Paragraphs.SplitParagraphSpec | translate_arxiv/process_text.py:40-48 | a split paragraph has only lines of at most 2000 characters and is the paragraph with line breaks added |
| Paragraphs.SplitParagraphCut | translate_arxiv/process_text.py:43-45 | a long paragraph is split only at a capitalised sentence; when there is none the cut is at 0, the source recurses on the same text forever, and the model reports the error |
| Paragraphs.JoinedSpec | translate_arxiv/process_text.py:48-51 | joining split paragraphs keeps every line short and the input a thinning |
| Paragraphs.SplitEachSpec | translate_arxiv/process_text.py:39-50 | each paragraph comes back split short, one result per paragraph |
| Paragraphs.SplitTooLongSpec | translate_arxiv/process_text.py:37-51 | when it succeeds every line has at most 2000 characters, and the input is the result with some line breaks removed |
| Paragraphs.SplitTooLongShort | translate_arxiv/process_text.py:37-51 | text whose lines are all short comes back unchanged |
| Paragraphs.SplitEachShort | translate_arxiv/process_text.py:49-50 | short paragraphs are kept as they are |
| Paragraphs.SplitTitles | translate_arxiv/process_text.py:61-70 | each line that `is_title` picks out with its successor is wrapped in blank lines, and every other line is kept |
| Translate.FirstAnswer | translate_arxiv/translate.py:42-50 | the retry loop skips exactly the leading rate-limited replies: every reply before the returned index is a rate-limit error and the one at it (if any) is not |
| Translate.AnswerFirst | translate_arxiv/translate.py:38-53 | a rate-limited reply is retried with the rest of the script; a translation ends the call with its text; any other engine error is re-raised |
| Translate.TextTranslator.constructor | translate_arxiv/translate.py:26-33 | a new translator holds the engine's reply script and starts with zero calls and zero characters counted |
| Translate.TextTranslator.Translate | translate_arxiv/translate.py:38-53 | text without an ASCII letter comes back unchanged and uses no reply; otherwise the result is the first non-rate-limited answer, and the call and character counters grow only when a translation succeeded |
| Translate.JoinLast | translate_arxiv/translate.py:86-87 | appending a line to the current part with a newline is the same as joining the parts with newlines and appending that line |
| Translate.PackJoin | translate_arxiv/translate.py:80-91 | packing loses and adds nothing: the packed parts joined by newlines are the lines joined by newlines, prefixed by the part already open |
| Translate.PackBounded | translate_arxiv/translate.py:84-91 | when no line reaches the character limit, every packed part stays below the limit |
| Translate.PackLines | translate_arxiv/translate.py:80-91 | packing fails exactly when some line reaches the character limit; otherwise the parts joined by newlines give back a newline followed by the text, and every part is below the limit |
| Translate.TranslateAllParts | translate_arxiv/translate.py:92-94 | a successful run yields one translation per part, and parts without a letter are kept verbatim |
| Translate.PrependStep | translate_arxiv/translate.py:93-94 | translating the parts from i on is translating part i, then the parts after it with the remaining replies, with results and counters accumulated |
| Translate.PrependStop | translate_arxiv/translate.py:93-94 | an engine error on part i ends the whole run with that error, keeping the counters of the parts before it |
| Translate.TranslateAllNoLetter | translate_arxiv/translate.py:38-40 | parts that contain no letter are returned unchanged without consuming any reply or counting any call |
| Translate.NoLetterPieces | translate_arxiv/translate.py:38-40 | if a joined text has no letter then none of its pieces has one |
| Translate.SqueezeSpec | translate_arxiv/translate.py:115 | replacing runs of two or more spaces by one only removes spaces, leaves no two spaces in a row, and keeps whether the text ends with a space |
| Translate.SqueezeSingle | translate_arxiv/translate.py:115 | text without a run of two spaces is left unchanged |
| Translate.CollapseSpacesSpec | translate_arxiv/translate.py:115 | the space collapse only removes spaces, leaves no space after a space, is idempotent, and keeps exactly one space for each maximal run of spaces |
| Translate.SqueezeRuns | translate_arxiv/translate.py:115 | the number of spaces left is the number of maximal runs of spaces in the input |
| Translate.ReplaceCharSpec | translate_arxiv/translate.py:96 | deleting every occurrence of a character only removes that character and none of it remains |
| Translate.DropZeroWidthSpec | translate_arxiv/translate.py:96 | removing the zero-width space only deletes zero-width spaces and none remains |
| Translate.WorkAllKeeps | translate_arxiv/translate.py:179-195 | mapping the worker over the paragraphs never changes or drops a cached entry, and without the cache it writes nothing |
| Translate.WorkAllConsistent | translate_arxiv/translate.py:179-195 | a successful map yields one result per paragraph; with the cache each result is stored under the paragraph's hash and an entry already cached is reused; without the cache each result is the paragraph's translation |
| Translate.WorkStep | translate_arxiv/translate.py:181-191 | one worker call on a paragraph either reuses its cached translation or translates it and stores it, then the map continues with the updated cache |
| Translate.WorkStop | translate_arxiv/translate.py:192-195 | a translation error in a paragraph that is not cached ends the map with that error |
| Translate.JoinPieceAt | translate_arxiv/translate.py:243 | in the paragraphs joined with a separator, paragraph k stands at the sum of the earlier paragraphs' lengths and separators |
| Translate.JoinSepAt | translate_arxiv/translate.py:243 | the separator follows each paragraph except the last |
| Translate.JoinOffsets | translate_arxiv/translate.py:243 | each paragraph and the separator after it sit at their computed offsets in the joined text |
| Translate.AssembleAt | translate_arxiv/translate.py:243-245 | in the assembled document, each translated paragraph stands after the preamble and a newline at its offset |
| Translate.AssembleSepAt | translate_arxiv/translate.py:243-245 | consecutive translated paragraphs are separated by a blank line in the assembled document |
| Translate.AssembleLayout | translate_arxiv/translate.py:243-245 | the assembled document starts with the preamble and a newline, ends with a newline and the closing part, and holds every paragraph in order separated by blank lines |
| Translate.ParagraphObjectsNested | translate_arxiv/translate.py:103-107 | the objects extracted from a paragraph after format deletion are each padded by spaces and name only objects extracted before them, so their recovery terminates |
| Translate.LatexTranslator.constructor | translate_arxiv/translate.py:56-67 | a new LaTeX translator holds the text translator and the paragraph cache; the attributes that translating a document sets later (cache switch and key, completeness, object and paragraph counters) start off and at zero |
| Translate.LatexTranslator.TranslateParts | translate_arxiv/translate.py:92-94 | translating the parts one by one consumes the replies as the specification run does and adds its calls and characters to the translator's counters |
| Translate.LatexTranslator.TranslateParagraphText | translate_arxiv/translate.py:75-96 | a line reaching the character limit fails before any engine call; otherwise the packed parts are translated in order, joined by newlines and stripped of zero-width spaces; text without letters comes back as a newline followed by the text |
| Translate.LatexTranslator.PrepareParagraphText | translate_arxiv/translate.py:103-115 | the objects are the ones extraction finds and are nested as recovery needs; preparation fails exactly when a too-long sentence cannot be split; the prepared text has no two spaces in a row |
| Translate.LatexTranslator.TranslateTextInParagraph | translate_arxiv/translate.py:98-130 | on success the object total grows by the number of objects extracted, the bad count never shrinks and no placeholder survives in the result; on failure the counters are unchanged; an unsplittable sentence fails before any engine call |
| Translate.LatexTranslator.TranslateTextInParagraphLatex | translate_arxiv/translate.py:132-137 | the counters never shrink, and on success the object total grows by the objects of every piece zipped with a separator |
| Translate.LatexTranslator.Worker | translate_arxiv/translate.py:179-195 | without the cache the worker returns the paragraph's translation and writes nothing; with it a cached paragraph is returned as stored, and a new translation is written under the paragraph's hash in this document's entry only; the paragraph counter grows on success |
| Translate.LatexTranslator.TranslateParagraphs | translate_arxiv/translate.py:236-241 | mapping the worker over the paragraphs gives the specification map's result, counts the paragraphs done, and leaves the cache as that map's cache in this document's entry and every other entry unchanged |
| Translate.LatexTranslator.StartDocument | translate_arxiv/translate.py:197-208 | with caching on, stale entries are dropped, the document's key is set and its entry is created or refreshed with the current time, keeping earlier paragraphs; with caching off the cache is untouched; both object counters start at zero |
| Translate.LatexTranslator.FrameDocument | translate_arxiv/translate.py:219-234 | `self.complete` is `is_complete(latex)` as written; a complete document is cut at the tags, a failed cut is a "not complete" failure, and its preamble, without blank lines, gets the package macros, failing only without a declaration; otherwise the lines are connected and the text gets the default frame or none |
| Translate.LatexTranslator.TranslateDocument | translate_arxiv/translate.py:219-245 | `self.complete` is `is_complete(latex)` as written and the frame is the one `FrameDocument` promises; a framing failure changes nothing; otherwise the body's paragraphs are mapped through the worker and the result is the assembled document with the translated paragraphs between the preamble and the closing part, the cache updated only in this document's entry |
| Translate.FramedStrict | translate_arxiv/translate.py:219-223 | a document whose end tag starts after its begin tag never fails framing as "not complete" |
| Translate.FramedEndBeforeBegin | translate_arxiv/translate.py:219-223 | the document `\documentclass{}\end{document}\begin{document}` passes the completeness check, yet framing it fails as "not complete" |
| Nested.CodeChars | translate_arxiv/process_latex.py:79-83 | a placeholder is the sentinel, an underscore and digits separated by underscores, so it holds no markup, no closing character and no space |
| Nested.BodyContinues | translate_arxiv/process_latex.py:79-83 | the digit groups of a placeholder start with a digit and every character of them continues the group pattern that recovery matches |
| Nested.PlaceholderToken | translate_arxiv/process_latex.py:9-10 | recovery's pattern, run on a placeholder followed by a space, reads back exactly that placeholder and the number it encodes |
| Nested.CodeAtToken | translate_arxiv/process_latex.py:9-10 | wherever a placeholder followed by a space stands in a text, recovery reads that placeholder's number there |
| Nested.TokensGood | translate_arxiv/process_latex.py:153-176 | when every sentinel in a text begins a placeholder of an object numbered below c, every number recovery reads in it is below c |
| Nested.DelimitedEndsClear | translate_arxiv/process_latex.py:125-130 | a match of a delimited object ($$, $, display and inline math) ends on its closing delimiter |
| Nested.NamedEndsClear | translate_arxiv/process_latex.py:20-33 | a multi-argument command taken without arguments matches only its name, which has no space |
| Nested.SimpleEndsClear | translate_arxiv/process_latex.py:40 | a simple command match is a backslash and letters, with no space |
| Nested.EnvEndsBrace | translate_arxiv/process_latex.py:17 | an environment match ends on the closing brace of its end tag |
| Nested.EnvMatchEndsClear | translate_arxiv/process_latex.py:17 | an environment match ends on a closing character |
| Nested.CommandArgsMatchEndsClear | translate_arxiv/process_latex.py:20-33 | a multi-argument command match ends on a closing brace or has no space |
| Nested.SetCommandEndsBrace | translate_arxiv/process_latex.py:44 | a match of the first set-command pattern ends on a closing brace |
| Nested.SetBracedEndsBrace | translate_arxiv/process_latex.py:45 | a match of the second set-command pattern ends on a closing brace |
| Nested.CommandEndsBrace | translate_arxiv/process_latex.py:20-39 | a full command match ends on the closing brace of its argument |
| Nested.BraceEndsBrace | translate_arxiv/process_latex.py:16 | a brace group match ends on its closing brace |
| Nested.SimpleMatchEndsClear | translate_arxiv/process_latex.py:40 | a simple command match holds no space |
| Nested.MatchEndsClear | translate_arxiv/process_latex.py:124-139 | every object pattern's match ends on a closing character or holds no space, so it never cuts a placeholder short |
| Nested.ObjectSentinel | translate_arxiv/process_latex.py:144-145 | a sentinel inside a padded object is a sentinel of the working text inside the matched span |
| Nested.CodeInsideMatch | translate_arxiv/process_latex.py:144-146 | a placeholder that starts inside a match lies wholly inside it |
| Nested.ObjectPlaced | translate_arxiv/process_latex.py:144-145 | every sentinel in a recorded object begins a placeholder of an earlier object, preceded by a space |
| Nested.ObjectGood | translate_arxiv/process_latex.py:144-145 | a recorded object keeps the working text's invariant: its sentinels only begin placeholders of earlier objects |
| Nested.CodeNoMarkup | translate_arxiv/process_latex.py:79-83 | no character of a placeholder or the space after it is markup, so no object match starts inside one |
| Nested.SubstitutedBefore | translate_arxiv/process_latex.py:146 | a sentinel before the replaced span still begins a placeholder of an earlier object after the substitution |
| Nested.SubstitutedAfter | translate_arxiv/process_latex.py:146 | a sentinel after the new placeholder still begins a placeholder of an earlier object after the substitution |
| Nested.NoStraySentinel | translate_arxiv/process_latex.py:146 | the inserted placeholder creates no sentinel except its own |
| Nested.NewPlaced | translate_arxiv/process_latex.py:146 | the inserted placeholder, padded by spaces, is a placeholder of an object numbered below the new count |
| Nested.SubstituteGood | translate_arxiv/process_latex.py:146-147 | replacing a match by the next placeholder keeps every sentinel a placeholder of an object already recorded |
| Nested.HitStep | translate_arxiv/process_latex.py:141-147 | one replacement records an object naming only earlier objects and keeps the working text's invariant for the next count |
| Nested.NestedCons | translate_arxiv/process_latex.py:141-147 | an object naming only earlier objects followed by a nested list is a nested list |
| Nested.ExtractNestedFrom | translate_arxiv/process_latex.py:141-147 | extraction from a text whose sentinels are all earlier placeholders records objects that each name only objects before them |
| Nested.ExtractNested | translate_arxiv/process_latex.py:111-148 | when the text holds no sentinel, every object extraction records is padded by spaces and names only objects recorded before it, which is what recovery needs to terminate |
| Nested.ObjectPatternsClosed | translate_arxiv/process_latex.py:124-139 | with multi-argument command names free of spaces, every object pattern ends on a closing character or matches no space |

## Left out

- Character classes: ASCII only. `islower`, `isupper`, `[a-zA-Z]` and `\s` are modelled on ASCII letters and blanks. `splitlines` splits on `\n` only, and `int()` reads ASCII digits only. The documents and headers handled are LaTeX and HTTP text.
- Translation engine: the network calls are replaced by a script of replies. The half-second sleep before a retry is not modelled.
- Thread pools: `executor.map` in the translator runs sequentially, since it keeps input order. The thread pools of the download-size and DNS tools take the completion order as a parameter.
- `deterministic_hash` (SHA-256) is a parameter.
- Clock values are parameters: the cache's `write_time` and the scheduler's start and end times are a `now` argument. The DNS delays are real numbers (`real`), not rounded to integers.
- NVML, `subprocess.Popen`/`poll`, `ffprobe` (`get_frame_rate`, `check_frame_rates`), `ping_test`, `get_ip_location`, the HTTP requests, `download`/curl and `init_header` are inputs to the model, not computations in it.
- File reading and writing are modelled as values: the playlist and its `.bak` copy, the IP list, the cache files, the scheduler's log files and task JSON (`load_tasks_from_file`), `create_sample_config`, and each tool's `main`.
- Logging, progress bars, the translator's debug files, `KeyboardInterrupt` handling and the scheduler's `check_interval` sleeps are left out.
- `checkDNS.py` raising `NameError` when the IP list file is missing is left out. The model starts from the list.
- `filterAdsM3u8.py` `main` raising `AttributeError` when no frame rate is read is modelled as a `None` result (`M3u8.FilterAds`).
- `split_by_command` and `process_leading_level_brace` are not modelled. `split_by_command`'s pieces and separators are parameters of `Translate.LatexTranslator.TranslateTextInParagraphLatex`.
- `translate_latex_all_objects`, `translate_text_in_paragraph_latex_and_leading_brace`, `translate_paragraph_latex` and `split_latex_to_paragraphs` are not modelled. The worker's translation and the paragraph split are parameters of the worker, `TranslateParagraphs` and `TranslateDocument`.
- `translate_full_latex` is modelled as `StartDocument` followed by `TranslateDocument`. Its preprocessing chain (lines 210-217) is not composed in it. Each step is a member of its own module (comments, `\mathbf`, bibliography notes, `\newcommand`, accents, specials).
- The title, `%` and escape post-pass of `translate_full_latex` (lines 247-253) and the final report print are not composed in it either. The `num = 'title'` assignment and the unused `theorems` list are left out.
- Assumptions stated as requires: the sentinel `mathCode` holds no markup, closing character, `_`, digit, space or `?` (`Nested.SafeMathCode`), and the input text does not already contain `<mathCode>_` (`Nested.NoSentinel`). `replace_latex_objects` itself says its input must not contain the code.
- Multi-argument command names are assumed to hold no space (`SpacelessNames`). The configured names are LaTeX command names.
- The starred names of `process_specific_env`/`process_specific_command` are modelled as written: the pattern text `name\*` is written back (`Escapes`/`Rewriters`, `WrittenName`).
- `split_too_long_paragraphs` on a line with no later capitalised sentence recurses forever in the source. The model returns an error (`Unsplittable`) instead.
- Translate.LatexTranslator.TranslateTextInParagraph: the result text is not tied to a specification function of the paragraph. Only the counters, the absence of leftover placeholders and the early failure are stated, because the recovery loop's result is specified in `Restore` and the composition with the reply script was too costly to state.
- Translate.LatexTranslator.TranslateTextInParagraphLatex: only the counters are stated, not the concatenated text, for the same reason.
- LatexDoc.RemoveTexCommentsEscapesKept: stated only when the placeholder code's first character occurs nowhere else in the protection words and the text holds neither protection word, since the source itself cannot tell its placeholders from the same words already in the text.
- Rewriters.ProcessSpecificCommandOne, Rewriters.DeleteSpecificFormatOne and Rewriters.ReplaceNewcommandOne: the effect of a whole-text rewrite is stated for a document holding one use and no other backslash; for other documents only the identity lemmas and the per-match rewrites are proved.
- Newcommands.ProcessNewcommandsOneUse: the whole of `process_newcommands` is stated for one one-argument definition followed by one use; with several definitions, a placeholder standing inside the argument of a macro whose body does not use that argument is dropped with it, and such documents are not characterised.
- `assert False` in `translate_paragraph_text` (line too long) becomes the error `LineTooLong`, and an engine error becomes `EngineError`. Exceptions are `Result` values throughout.

## Findings

| source | as written | input that shows it | evidently intended | confidence | as-written member | corrected member |
|---|---|---|---|---|---|---|
| translate_arxiv/process_latex.py:332-358 | the order check compares the end of the `\end{document}` match with the start of the `\begin{document}` match, so an end tag that starts before the begin tag passes | `\documentclass{}\end{document}\begin{document}` passes `is_complete`, and `split_latex_document` (translate.py:221-223) then fails its assertion | the end tag must start after the begin tag, so a complete document can always be split | not executed | LatexDoc.IsCompleteAdmitsFailedSplit | LatexDoc.IsCompleteStrictSplits |
| check_DNS/checkDNS.py:71-73 | the IP list file is rewritten with the addresses concatenated, with no line break between them | `["1.1.1.1", "8.8.8.8"]` is written as `1.1.1.18.8.8.8` and reads back as the single address `1.1.1.18.8.8.8` | one address per line, so the next run reads the same list | not executed | CheckDns.RewriteMergesExample | CheckDns.RewriteIpList |
