# docling_lib: a Dafny model

docling_lib turns documents into Markdown behind a command line and an HTTP server. This
project models the parts of it that carry state, concurrency or string-level reasoning, and
proves what they keep over whole runs. `dafny verify dfyconfig.toml` checks everything.

| module | what it models |
|---|---|
| `RateLimiter`, `CleanupProgress` | the sliding-window limiter and the clean-up tasks that run between its requests; that these tasks get to their end |
| `ClientIdentity` | trusted proxies and the choice of the client a request is charged to |
| `Recency`, `ModelPool`, `PoolThreads`, `ConversionLock` | least-recently-used order; the converter pool; any number of threads calling it; its reset with and without the conversion lock |
| `TablePrinter` | the Markdown table printer and a parser that reads its output back |
| `Matching`, `Replacements`, `PageBreaks`, `PageBreakOverlap`, `PageSplit` | regular-expression substitution, and a loop of string replacements, in general; page-break markers, and markers that share characters; numbered pages written and split again |
| `ImageNames` | image files, the links to them, and the memo table that locates a picture |
| `CaptionRetries`, `CaptionSlots`, `CaptionDeadlock`, `CaptionProgress` | the retry loop of a caption call; the semaphores that bound concurrent calls; when calls come to a standstill; how they begin, get to their end or are cancelled |
| `BodyLimit` | the middleware that limits request bodies, for any application behind it |
| `DotSegments`, `ExcelTargets`, `UriReferences`, `ExcelImages`, `ExcelPictures` | relative paths (RFC 3986); targets of a workbook's relationships; the same as URI references; the images found through them; adding those that are missing |
| `Text` | Python's strip, split, join and decimal numerals |

Classes and loops of the source are classes and loops here. Each is proved against a function
of the old state or the inputs, and the main results are about those functions: as lemmas
over every input, or, where the source is concurrent, over every sequence of atomic steps.
Three independent references stand beside the code: a limiter that keeps its whole history, the
recency order of an access trace, and the dot-segment algorithm of RFC 3986.

Where a property holds only under a condition, the condition is proved to be exact:

- a clean-up's effect lasts exactly for a positive window, or a limiter that serves nobody
  (`RateLimiter.CleanupEffect`);
- evicting from the pool never raises exactly for a size of at least one
  (`PoolThreads.EvictionIsSafe`);
- the pool always serves converters as good as fresh ones exactly when, among the options in
  use, the cache key decides the page-break option and the artifacts path, which it leaves out
  (`PoolThreads.AlwaysFreshIff`). A worker preloaded with one option and then asked for the
  other is served a stale one (`PoolThreads.PreloadThenPageBreaks`);
- the first conversion resets the pool with two statements outside the pool's lock. They leave
  an empty pool exactly when no second locked section runs between them, after the last whole
  reset if there is one; with none at all they are one whole reset
  (`PoolThreads.ResetIsAtomicIff`). Without the conversion lock a later call can raise, whatever
  the size (`ConversionLock.SplitResetRaises`); that lock (`src/docling_lib/converter.py`, lines
  949-951) excludes it for every size of at least one (`ConversionLock.LockMakesResetAtomic`);
- the page-break substitution and the loop it replaced agree exactly when no marker steals from
  another one and all page numbers are ASCII without leading zeros
  (`PageBreaks.LoopAgreesIff`). Markers that do
  not overlap never steal; markers that share characters can
  (`PageBreakOverlap.OverlapBreaksTheLoop`);
- the memo table keeps the last picture with a reference, the scan it replaced found the first:
  they agree exactly for references used at most once (`ImageNames.SearchesAgreeIff`);
- the blocking and the asynchronous caption calls are interchangeable exactly when the base
  delay is not negative or nothing is retried, because only a blocking sleep refuses a
  negative delay (`CaptionRetries.TwinsInterchangeableIff`);
- once all is settled, a semaphore has lost permits exactly when it had any and a call of its
  key was cancelled while its worker thread was acquiring (`CaptionSlots.PermitsLostIff`); the
  calls of a key are deadlocked exactly when each waits for a semaphore that has lost all
  permits, or for a worker thread while all are waiting (`CaptionDeadlock.DeadlockIff`);
- the body limit is invisible to the application and the client exactly when Content-Length, if
  given, is within it, all that the application would receive fits, and the application does
  not itself raise the middleware's exception before it answers (`BodyLimit.TransparentIff`);
- a worksheet's target is resolved as RFC 3986 says exactly when it stays within the archive and
  its path conforms (`UriReferences.SheetTargetIsRfcIff`, with the condition on paths spelled out
  in `ExcelTargets.Conforms`); a drawing's target is, even if moved to the media folder, exactly
  under the condition of `UriReferences.DrawingTargetIsRfcIff`;
- enriching a document never repeats a picture exactly when the files are the PNG encodings
  they are compared with (`ExcelPictures.NeverRepeatsIff`).

## Model

| member | source | states |
|---|---|---|
| RateLimiter.Limiter.PopExpired | src/docling_lib/server.py:469-471 | Popping from the left removes exactly the timestamps before the first that has not expired. |
| RateLimiter.Limiter.CheckRequest | src/docling_lib/server.py:455-480 | One request: accepted if and only if fewer than the limit remain after pruning; the pruned and perhaps extended deque is the only change; a clean-up is spawned every 600 seconds. |
| RateLimiter.Limiter.SweepBatch | src/docling_lib/server.py:306-315 | One batch of a clean-up, up to its next yield at a multiple of 100 keys, prunes just the deques of these keys and removes those left empty. |
| RateLimiter.Limiter.Handle | src/docling_lib/server.py:305-315 | Each step of the server, a tick, a request or the resumption of a clean-up task, does to clock, deques and tasks what the transition system says. |
| RateLimiter.RunSimulates | src/docling_lib/server.py:299-315 | After any run each deque is a suffix of its client's history, and what is missing from it has expired for good. |
| RateLimiter.DecisionsMatchHistory | src/docling_lib/server.py:468-480 | In every interleaving the answers are those of a limiter that keeps all history and accepts if and only if fewer than the limit of past accepts lie in the window. |
| RateLimiter.CleanupIsInvisible | src/docling_lib/server.py:299-315 | Deleting all clean-up batches from a run, however stale their clock, changes no answer. |
| RateLimiter.LogIsHistory | src/docling_lib/server.py:468-480 | The requests that the limiter lets through in any run are exactly those the history-keeping limiter serves, with their times. |
| RateLimiter.ServedAreSpaced | src/docling_lib/server.py:469-480 | In every run two requests of a client that the limiter lets through limit places apart are at least a window apart. |
| RateLimiter.NoWindowOverfull | src/docling_lib/server.py:469-480 | In every run no half-open window of the configured length holds more requests of a client that the limiter let through than the limit. |
| RateLimiter.StorageInvariant | src/docling_lib/server.py:295-315 | Between steps every stored deque is sorted and no longer than the limit, and it is empty only where the limit admits nobody. |
| RateLimiter.CleanupEffect | src/docling_lib/server.py:305-315 | In all runs the keys a task has visited hold nothing expired at the task's own clock, whatever ran in between, if and only if the window is positive or nobody is ever served. |
| CleanupProgress.TaskGoesOn | src/docling_lib/server.py:305-308 | In every run a started task goes on by 100 keys, or to its last, whenever it is resumed, whatever else happens in between; its clock and keys stay. |
| CleanupProgress.TaskStarts | src/docling_lib/server.py:305-308 | A task that is started takes the keys then stored and handles the first 100. |
| CleanupProgress.TaskCompletes | src/docling_lib/server.py:305-315 | A task resumed often enough reaches its last key, and then, for a positive window or a limiter that serves nobody, each of its keys is absent or holds nothing expired at its clock. |
| CleanupProgress.TaskIsCreatedIff | src/docling_lib/server.py:464-466 | In every run a request creates a task, with the present clock, if and only if 600 seconds have passed since the last one was created; nothing else does. |
| ClientIdentity.NetworkIsAddressRange | src/docling_lib/server.py:380-383 | Membership in a network means the consecutive block of addresses that its prefix fixes (section 3.1 of RFC 4632). |
| ClientIdentity.ParseTrustedProxies | src/docling_lib/server.py:366-387 | The wildcard flag, the exact entries and the networks are precisely those of the configured list. |
| ClientIdentity.IsTrustedProxy | src/docling_lib/server.py:390-421 | The pre-parsed form agrees with a naive scan of the configured list. |
| ClientIdentity.TrustedIff | src/docling_lib/server.py:390-421 | Trusted means not empty and covered by a wildcard, an entry for the address itself, or a network whose block of addresses holds it. |
| ClientIdentity.GetClientIp | src/docling_lib/server.py:424-452 | The answer is the connection if it is not trusted; else the rightmost untrusted hop, or the leftmost if all are trusted; else the real-IP header; else the connection. |
| ClientIdentity.ClientIpIsUnique | src/docling_lib/server.py:424-452 | That description fits one answer only. |
| ClientIdentity.HopsRoundTrip | src/docling_lib/server.py:434-437 | Hops joined by commas and blanks read back as they are. |
| ClientIdentity.ForwardedClient | src/docling_lib/server.py:434-445 | Behind a trusted connection such a header leads to the hop to the right of which all are trusted, and to the leftmost if all are. |
| ClientIdentity.FallbackClient | src/docling_lib/server.py:446-452 | Where the header holds commas and blanks only, the client is the real-IP header without the whitespace around it, and without that the connection. |
| ClientIdentity.PrependedHopsAreIgnored | src/docling_lib/server.py:434-445 | Whatever text is put in front of the forwarding header, an answer that came from an untrusted hop stays. |
| ClientIdentity.UntrustedConnectionIgnoresHeaders | src/docling_lib/server.py:428-452 | Without a trusted connection the headers have no influence. |
| Recency.CachedIffRecent | src/docling_lib/pool.py:64-70 | A key is among the n most recently used exactly when fewer than n other keys were used since its last use. |
| ModelPool.ThreadSafeModelPool.FirstSection | src/docling_lib/pool.py:48-53 | A hit returns the cached instance and makes its key the most recent; a miss changes nothing. |
| ModelPool.ThreadSafeModelPool.SecondSection | src/docling_lib/pool.py:58-71 | A late hit drops the new converter; otherwise it is cached, evicting the least recently used key if the pool is full; it raises if and only if the size is not positive. |
| ModelPool.ThreadSafeModelPool.GetConverter | src/docling_lib/pool.py:33-71 | One undisturbed call keeps the pool the least-recently-used cache of its accesses; it serves the cached instance if there is one, else the one it built. |
| ModelPool.ThreadSafeModelPool.Reset | src/docling_lib/converter.py:909-911 | The reset leaves an empty pool with an empty history. |
| ModelPool.PublishIsLru | src/docling_lib/pool.py:58-71 | The second section keeps the least-recently-used order for every trace, exactly when the size is positive; otherwise it changes nothing. |
| ModelPool.LargerPoolIncludesSmaller | src/docling_lib/pool.py:48-71 | After the same calls, from an empty pool, a larger pool caches all that a smaller one does, and its access list ends in the smaller one's. |
| ModelPool.CachedEqualsFresh | src/docling_lib/converter.py:243-271 | For options with the same key, cached and fresh converter run the same pipeline if and only if page breaks and artifacts path agree. |
| ModelPool.KeysAgreeIff | src/docling_lib/pool.py:37-46 | Callers share a cache entry if and only if the eight options of the key agree. |
| ModelPool.SettingsShowOptions | src/docling_lib/converter.py:243-271 | The options can be read back from the settings, each from its own place, but for an empty artifacts path and the table format, which has no influence. |
| PoolThreads.PoolIsAlwaysLru | src/docling_lib/pool.py:48-71 | In every interleaving of threads the access list is the most recently used keys of the trace, the dictionary has the same keys, and there are never more than the size allows. |
| PoolThreads.EvictionIsSafe | src/docling_lib/pool.py:64-66 | No interleaving meets an empty access list when it evicts, if and only if the size is at least one. |
| PoolThreads.OneInstancePerResidency | src/docling_lib/pool.py:48-62 | While a key stays cached, every call for it that any thread completes gets the same instance. |
| PoolThreads.LosingInstanceIsNeverPublished | src/docling_lib/pool.py:56-62 | A converter whose builder finds its key cached is never cached or handed out in any continuation. |
| PoolThreads.EveryCallIsServed | src/docling_lib/pool.py:48-71 | Whatever other threads do meanwhile, a call of a free thread ends with the instance its key has when it comes, else the one the key has at the second section, else its own new one, which then is cached. |
| PoolThreads.ServedFitsKey | src/docling_lib/pool.py:37-46 | Every converter served, in any run, was built for the key asked for, and equals a fresh one if and only if the two options outside the key agree. |
| PoolThreads.AlwaysFreshIff | src/docling_lib/pool.py:37-71 | Every converter served in every run, through hits, evictions and resets, is as good as a fresh one if and only if, among the options that callers use, those with equal keys agree on page breaks and artifacts path (or nothing is ever served). |
| PoolThreads.PreloadThenPageBreaks | src/docling_lib/pool.py:74-87 | A worker preloaded with some options and then given a job that differs in the page breaks only can be served a stale converter. |
| PoolThreads.UniformRunsServeFresh | src/docling_lib/converter.py:902-914 | In particular, when all callers share those two options, every converter served is as good as a fresh one. |
| PoolThreads.ResetIsAtomicIff | src/docling_lib/converter.py:908-911 | For a size of at least one, the two statements of the reset leave an empty pool, and dictionary and list in agreement, exactly when no second section runs between them (after the last whole reset, if any); with none at all they are one whole reset. |
| ConversionLock.SplitResetRaises | src/docling_lib/converter.py:908-913 | Without the conversion lock no size is safe: for every size and any number of threads some run, with calls between the two statements and one after them, evicts from an empty list. |
| ConversionLock.LockMakesResetAtomic | src/docling_lib/converter.py:949-951 | With the conversion lock every run, its resets in two statements, is a run of the atomic model; so for a size of at least one nothing raises, and outside a reset the pool is the least-recently-used cache of its accesses. |
| ConversionLock.EveryConversionCompletes | src/docling_lib/converter.py:949-951 | In every run a thread that enters while the lock is free leaves it after at most seven steps, with the converter its key has in the pool, which the first conversion has emptied before. |
| TablePrinter.FillGrid | src/docling_lib/utils.py:318-329 | The loop leaves the escaped texts at their places, as the printed table is then shown to have them; cells outside are ignored. |
| TablePrinter.FindDimensions | src/docling_lib/utils.py:306-313 | The declared dimensions, or the extent of the cells when one is missing. |
| TablePrinter.SerializeTable | src/docling_lib/utils.py:295-337 | The loops print the specified Markdown, and nothing for a table without cells or extent. |
| TablePrinter.CellTextIsEscapedPlain | src/docling_lib/utils.py:324-326 | Escaping before trimming is the same as trimming before escaping. |
| TablePrinter.RowRoundTrip | src/docling_lib/utils.py:333-335 | A printed row reads back as its cells, whatever pipes, escaped pipes or final backslashes they hold. |
| TablePrinter.TableRoundTrip | src/docling_lib/utils.py:318-337 | Parsing the Markdown (section 4.10 of the GitHub Flavored Markdown Spec) gives back exactly the rows, columns and plain texts; the delimiter row has one entry for each column. |
| TablePrinter.ShapeIsShown | src/docling_lib/utils.py:331-337 | The parsed output has as many rows and columns as the dimensions say, and one delimiter of three dashes for each column. |
| TablePrinter.CellIsShown | src/docling_lib/utils.py:320-328 | In the parsed output each cell that starts inside and has no later one at its start is found at its row and column with its own text. |
| TablePrinter.NothingElseIsShown | src/docling_lib/utils.py:318-328 | Every position at which no cell starts reads as empty. |
| TablePrinter.DimensionsAreExtent | src/docling_lib/utils.py:306-313 | The dimensions are the declared ones; if one is missing, both are at least the declared ones and all cell ends, and each is one of these. |
| TablePrinter.NothingPrintedIff | src/docling_lib/utils.py:301-316 | The output is empty if and only if there is no table, no cell, no column, or not even one row. |
| TablePrinter.PrintingIsInjective | src/docling_lib/utils.py:318-337 | Two tables print the same if and only if they show the same grid. |
| PageBreaks.MarkerAtIff | src/docling_lib/serializers.py:29 | The matcher finds a marker at the start of a text exactly when the text begins with one, with its whole extent and second number, for any Unicode digits. |
| PageBreaks.FirstMarker | src/docling_lib/serializers.py:29 | The marker after page 1, and the comment that takes its place, in full. |
| PageBreaks.DigitIff | src/docling_lib/serializers.py:29 | The digits are ten from each of the listed characters and those of ASCII. |
| PageBreaks.RewriteKeepsText | src/docling_lib/serializers.py:440-441 | The result keeps all text between the leftmost non-overlapping markers and has a comment with the captured number for each, in order. |
| PageBreaks.RewriteIsIdempotent | src/docling_lib/serializers.py:440-441 | No complete marker is left in any result, so rewriting again changes nothing. |
| PageBreaks.LoopAgreesIff | tests/benchmark/page_break_benchmark.py:8-31 | For every text, the loop of replacements gives the same text as the substitution if and only if no marker steals from another one when its turn comes (an occurrence of it begins inside another marker not yet replaced, and runs into none that has been), and every page number is ASCII without leading zeros. |
| PageBreaks.ApartIsUndisturbed | tests/benchmark/page_break_benchmark.py:18-31 | Markers that do not overlap never steal. |
| PageBreakOverlap.SharedMarkersDisagree | tests/benchmark/page_break_benchmark.py:18-31 | When a marker shares its end with another copy of an earlier one, the two give different texts, which are spelled out, even on plain page numbers. |
| PageBreakOverlap.OverlapBreaksTheLoop | tests/benchmark/page_break_benchmark.py:18-31 | Such a text with markers 3 to 4 and 1 to 2. |
| Matching.LeftmostIsScan | src/docling_lib/serializers.py:441 | There is only one way to cut a text into matches and characters at which no match begins. |
| Matching.SubIsIdempotent | src/docling_lib/serializers.py:441 | Substitution leaves no match and is idempotent whenever replacements cannot complete one. |
| Replacements.LoopEqualsSubIff | tests/benchmark/page_break_benchmark.py:18-31 | Replacing all occurrences of each match text in turn equals the single pass if and only if no match steals from another one, for any pattern and replacements that cannot be confused. |
| PageSplit.RewriteDocumentIff | src/docling_lib/serializers.py:440-441 | Rewriting a document of numbered pages replaces exactly the markers between them if and only if no page text completes a marker. |
| PageSplit.NewlinesSeparate | src/docling_lib/serializers.py:440-441 | Page texts without markers that end in a newline never complete one. |
| PageSplit.SplitPagedIff | src/docling_lib/converter.py:661-665 | Adding the comment of page 1 and splitting at the comments returns the numbers and texts if and only if no page text holds a page comment. |
| PageSplit.PageRoundTrip | src/docling_lib/converter.py:661-665 | From page texts over markers and comments back to the numbers 1 to n and the texts, with the blank line that the first comment brings. |
| PageSplit.PageRoundTripIff | src/docling_lib/converter.py:661-665 | That round trip works, with the comment of page 1 really put in front, if and only if the page texts complete no marker and hold no page comment. |
| PageSplit.PostProcessIff | src/docling_lib/converter.py:661-665 | The comment of page 1 is put in front, with a blank line, exactly where the stripped content does not begin with it. |
| PageSplit.PostProcessIsIdempotent | src/docling_lib/converter.py:661-665 | Doing it again changes nothing, for every content. |
| PageSplit.HeadedRoundTrip | src/docling_lib/converter.py:663-665 | Pages that have all their comments already are left alone and read back as they are, if no page text holds a page comment. |
| ImageNames.PageNo | src/docling_lib/utils.py:365-375 | The first positive page number recorded, or 1 if there is none. |
| ImageNames.FileNameInjective | src/docling_lib/utils.py:378-385 | Two names are equal if and only if slug, page and index are, up to the defaults the naming applies. |
| ImageNames.NameRoundTrip | src/docling_lib/utils.py:378-385 | Slug, page and index can be read back from every file name, whatever underscores the slug has. |
| ImageNames.SavesCommute | src/docling_lib/converter.py:727-736 | Every order in which the worker threads save gives the same directory. |
| ImageNames.SaveImages | src/docling_lib/converter.py:703-736 | Each picture with an image that can be written has its file, and there are no other files. |
| ImageNames.FilesAreSavedPictures | src/docling_lib/converter.py:703-736 | A file shows a picture if and only if the picture has an image that can be written, under the name of its page and place. |
| ImageNames.SearchesAgreeIff | src/docling_lib/serializers.py:95-102 | The memo's search and the linear scan find the same picture if and only if the reference occurs at most once. |
| ImageNames.PictureSerializer.BuildMemo | src/docling_lib/serializers.py:93-100 | The memo gives every reference its last picture and that picture's page. |
| ImageNames.PictureSerializer.Locate | src/docling_lib/serializers.py:87-102 | Whatever document was cached, the answer is that for the given document. |
| ImageNames.PictureSerializer.ImageTag | src/docling_lib/serializers.py:104-114 | A tag is printed exactly for the document's own pictures, and it names the picture's file. |
| ImageNames.PictureSerializer.LocateAll | tests/benchmark/picture_serialization_benchmark.py:17-24 | Over any sequence of look-ups in any mix of documents each index and page number is that of a fresh linear scan, if references are unique. |
| ImageNames.LinkNamesSavedFile | src/docling_lib/converter.py:650-673 | The link printed for a saved picture names the file that shows it, however many pictures without images come before, if and only if no later picture has its reference. |
| ImageNames.SerializerLinksIff | src/docling_lib/serializers.py:104-106 | The same for a serializer with or without a slug of its own: moreover the pictures must be saved under that slug or, without one, under the document's. |
| CaptionRetries.PostWithRetries | src/docling_lib/vlm.py:551-592 | The loop makes the specified posts and waits and returns the specified caption; the code after it is reached if and only if the number of retries is negative. |
| CaptionRetries.LastAttempt | src/docling_lib/vlm.py:650-691 | The last attempt is the first that does not lead to another: all before it were transient and could sleep, it was not or was the last allowed. |
| CaptionRetries.PostsCountTransientPrefix | src/docling_lib/vlm.py:488-490 | The number of posts is that of the leading transient outcomes plus one, at most the retries plus one, if and only if every sleep before is accepted; the caption is the answer to the last post. |
| CaptionRetries.TwinsAgreeIff | src/docling_lib/vlm.py:551-592 | For given outcomes the two versions post equally often if and only if no delay is negative, and then return the same. |
| CaptionRetries.TwinsInterchangeableIff | src/docling_lib/vlm.py:650-691 | For a configuration they are interchangeable if and only if the base delay is not negative or there are no retries. |
| CaptionRetries.WaitedBounds | src/docling_lib/vlm.py:493-496 | k sleeps last at least base * (2^k - 1) and at most 0.099 * k longer. |
| CaptionRetries.WaitedExactly | src/docling_lib/vlm.py:493-496 | For a base delay that is not negative the time is the exponential series and the random milliseconds. |
| CaptionSlots.SemaphoreRegistry.GetSemaphore | src/docling_lib/vlm.py:147-162 | The semaphore of the normalised key, created on first use with the limit as its permits; a new key with a negative limit is refused; no other entry changes. |
| CaptionSlots.PermitsAreConserved | src/docling_lib/vlm.py:536-596 | In every interleaving free, held and leaked permits of a key add up to its limit, and never more callers are posting. |
| CaptionSlots.AllFreeInTheEnd | src/docling_lib/vlm.py:694-695 | When all calls have ended, in whichever way, all permits are free. |
| CaptionSlots.StrayIffCancelledWhileAcquiring | src/docling_lib/vlm.py:537-540 | A thread of a key's callers is left behind, waiting or with a permit, if and only if one of them was cancelled while its worker thread was acquiring. |
| CaptionSlots.PermitsLostIff | src/docling_lib/vlm.py:536-596 | When nobody holds a permit and no thread left behind can still get one, a semaphore has fewer permits than its limit if and only if the limit is positive and a caller of its key was cancelled while acquiring. |
| CaptionSlots.RegisteredStays | src/docling_lib/vlm.py:160-162 | No continuation of a run replaces a registered semaphore. |
| CaptionSlots.SharedIffSameKey | src/docling_lib/vlm.py:155-159 | Two callers use the same semaphore if and only if their limits are equal and their endpoints and providers are the same up to case and surrounding whitespace, an empty provider standing for ollama. |
| CaptionSlots.KeysAgreeIff | src/docling_lib/vlm.py:155-159 | The same for the keys of any two requests. |
| CaptionSlots.PostsWithinLimit | src/docling_lib/vlm.py:147-162 | No more callers post at a semaphore than the limit of each of its users allows. |
| CaptionSlots.FinishesAsAlone | src/docling_lib/vlm.py:618-695 | Every finished caller posted as often and returned the same caption as the sequential loop would on its own. |
| CaptionDeadlock.SomeoneCanMove | src/docling_lib/vlm.py:636-695 | Unless a pending call is held up (cancelled calls have lost all permits of its semaphore, or all worker threads of its loop are waiting), it or another call of the same key can go on. |
| CaptionDeadlock.DeadlockIff | src/docling_lib/vlm.py:536-596 | In every run, for one key, several or all: no pending call can go on if and only if each of them waits for a semaphore that has lost all permits, or needs a worker thread while all of its loop are waiting. |
| CaptionDeadlock.StarvedForever | src/docling_lib/vlm.py:536-540 | A call that waits for a semaphore that has lost all permits never gets any further in any continuation. |
| CaptionDeadlock.StandstillIff | src/docling_lib/vlm.py:536-596 | Nothing at all can change any more if and only if every call is over, or waits in vain for lost permits, or lacks a worker thread; the threads it lacks then all wait in vain. |
| CaptionDeadlock.WorkersSuffice | src/docling_lib/vlm.py:537-540 | Never more threads wait for permits than an event loop has. |
| CaptionDeadlock.WorkersAreKept | src/docling_lib/vlm.py:537-540 | A worker thread is taken when a call begins to wait and is free only after the wait; cancelling the call does not free it. |
| CaptionProgress.FirstStepBegins | src/docling_lib/vlm.py:514-535 | A call that cannot be prepared is over, one with a negative limit is refused, and any other waits at the semaphore of its key; only an asynchronous one with an image needs a worker thread before. |
| CaptionProgress.WaitingStep | src/docling_lib/vlm.py:536-541 | A call waits for a worker thread exactly while all of its loop are waiting, and for a permit exactly while there is none; it takes one only. |
| CaptionProgress.HolderFinishes | src/docling_lib/vlm.py:551-596 | A call that holds a permit and is not cancelled finishes after at most two steps for each retry and three more, whatever the others do, with the posts and the caption it would have alone. |
| CaptionProgress.OnlyCancelledStop | src/docling_lib/vlm.py:536-596 | A call stops short only if it was cancelled. |
| CaptionProgress.CancelStops | src/docling_lib/vlm.py:536-596 | Cancelling stops a call if and only if it is asynchronous, not over, and awaits. |
| CaptionProgress.StoppedForGood | src/docling_lib/vlm.py:536-596 | A stopped call never goes on. |
| BodyLimit.Exchange.WrappedReceive | src/docling_lib/server.py:106-114 | Counts a chunk and hands it over, or raises if the body has outgrown the limit; other messages pass. |
| BodyLimit.Exchange.WrappedSend | src/docling_lib/server.py:116-120 | Passes every message on and remembers a response start. |
| BodyLimit.Exchange.Call | src/docling_lib/server.py:82-126 | The whole exchange: what the application and the wire see and how it ends, for any application and any number of its actions; scopes other than HTTP are not touched. |
| BodyLimit.WireIsSaid | src/docling_lib/server.py:116-120 | With or without a limit, what the application sends reaches the wire: exactly its own messages, in order, as read off its choices. |
| BodyLimit.WireIsSaidOrRefused | src/docling_lib/server.py:82-126 | What goes out behind the middleware is what the application says, followed by a 413 exactly when the exception comes out before any response start; or just the 413 for an oversized Content-Length. |
| BodyLimit.RunFollowsApp | src/docling_lib/server.py:99-126 | Every reply answers the choice the application makes, and the exchange ends when and as it chooses. |
| BodyLimit.ReceiptsAreExact | src/docling_lib/server.py:106-114 | A message is let through if and only if the body up to it fits, whatever the application does or catches; the bytes let through are those before the first that does not fit. |
| BodyLimit.ForwardedWithinLimit | src/docling_lib/server.py:106-114 | No application ever gets more bytes than the limit. |
| BodyLimit.TransparentIff | src/docling_lib/server.py:82-126 | Application and client see the same as without the middleware if and only if Content-Length, if given, is within the limit, all that the application would take fits, and it does not raise the exception of its own accord before it begins to answer; the exchange also ends in the same way if and only if it does not raise that exception at all. |
| BodyLimit.OneResponseStartIff | src/docling_lib/server.py:116-126 | At most one response start reaches the wire if and only if the application sends at most one; an oversized Content-Length gives just the refusal. |
| BodyLimit.RefusedIffOver | src/docling_lib/server.py:122-126 | An application that lets the exception pass, on a request whose Content-Length, if given, is within the limit, ends in exactly one 413 if and only if its body outgrew the limit before it began to answer; otherwise nothing is added. |
| ExcelTargets.WorkbookTarget | src/docling_lib/utils.py:52-63 | Every sheet path lies below xl/, so it can be split at its last slash. |
| ExcelTargets.SheetTarget | src/docling_lib/utils.py:66-81 | Every drawing path has a slash, so it can be split at its last one. |
| ExcelTargets.DrawingTarget | src/docling_lib/utils.py:84-99 | Every media path has a slash. |
| ExcelTargets.MediaTargetsMove | src/docling_lib/utils.py:94-95 | A target in whatever folder whose name ends in media moves to xl/media under its own name. |
| ExcelTargets.UsualMediaConforms | src/docling_lib/utils.py:94-95 | The usual target, a file in the media folder beside the drawing's own, is resolved as RFC 3986 says. |
| ExcelTargets.RSplit | src/docling_lib/utils.py:245-263 | With a slash there are two parts, which make up the path, and the second has no slash. |
| UriReferences.SheetTargetIsRfcIff | src/docling_lib/utils.py:66-81 | Any sheet target, read as a URI reference, is resolved as section 5.2 of RFC 3986 says if and only if it has neither scheme nor authority and its path conforms, for any folder below /xl/; query and fragment are kept either way. |
| ExcelTargets.ConformsInSubfolder | src/docling_lib/utils.py:76-79 | For a sheet right in a folder below /xl/ this means: clean below /xl/ if absolute; else clean but for one climb, and not starting with xl/. |
| UriReferences.WorkbookTargetIsRfcIff | src/docling_lib/utils.py:52-63 | The same for the targets in the workbook itself. |
| UriReferences.DrawingTargetIsRfcIff | src/docling_lib/utils.py:84-99 | Any drawing target is resolved as RFC 3986 says if and only if it has neither scheme nor authority, no media folder in query or fragment, and its path conforms: with a media folder, it leads to xl/media by its last one and is clean behind it; otherwise it is as for sheets but never climbs. |
| ExcelImages.ParseRelationships | src/docling_lib/utils.py:52-63 | Each id gets the resolution of its last usable target, and unusable entries are ignored. |
| ExcelImages.LastTargetIff | src/docling_lib/utils.py:52-63 | The target of an id is that of its last entry with a target. |
| ExcelImages.RelsPathOfFile | src/docling_lib/utils.py:245-246 | The relationships of a file are in the folder _rels beside it, under its name. |
| ExcelImages.ExtractAnchors | src/docling_lib/utils.py:117-178 | The images of a drawing are those its anchors lead to, at their cells, each once, in the order of the anchors; reading it fails if and only if one of these files cannot be read. |
| ExcelImages.ExtractSheet | src/docling_lib/utils.py:236-284 | A sheet is read if and only if all the files it needs can be; its images are those the anchors of its drawing lead to, under its number. |
| ExcelImages.ExtractExcelImages | src/docling_lib/utils.py:218-292 | The images of all sheets before the first that cannot be read, and none if the workbook does not open. |
| ExcelImages.ExtractedIff | src/docling_lib/utils.py:218-292 | An image is extracted if and only if the workbook opens, a chain of relationships leads to it over a sheet, its drawing and an anchor, each link the last for its id in the file beside the one it is about, and all files needed for the sheets up to that one can be read. |
| ExcelPictures.ExcelDocument.EnrichPictures | src/docling_lib/converter.py:333-367 | Exactly the first loadable occurrence of each hash not present before is appended, in order, at its cell and sheet, up to the first that cannot be encoded; items without a hash always count as new. |
| ExcelPictures.EnrichedInOrder | src/docling_lib/converter.py:333-367 | The document's own pictures stay in front; behind them come, in the order of the items and at their cells, exactly the new ones before the first that cannot be encoded. |
| ExcelPictures.PlacedAtItsCell | src/docling_lib/converter.py:344-363 | The box of a picture has its width and height; the column moves it sideways only, the row up or down only. |
| ExcelPictures.NothingNewIff | src/docling_lib/converter.py:336-343 | Nothing is appended if and only if every loadable item has a hash the document already has. |
| ExcelPictures.NeverRepeatsIff | src/docling_lib/converter.py:292-343 | For any supply of files, enriching never appends a picture shown before if and only if each that can be shown has the hash of its own PNG encoding; so a file of any other format can be repeated. |

## Left out

- Docling itself, image encoding, YAML, ZIP and XML parsing, HTTP and the file system: foreign calls; their results are parameters.
- Command line, configuration, logging, metrics, API keys, model downloads and path validation: plumbing or single branches.
- Payload builders, response fields, formula delimiters and `to_dict`/`from_dict`: they would only add easy members.
- The process pool: a worker pool of the standard library behind one global.
- A clock that runs backwards: ticks of the limiter's clock that go back are ignored.
- ClientIdentity.IsTrustedProxy: parsing addresses and networks is a parameter, and a cached parse of an outdated list is not modelled.
- CaptionSlots.SemaphoreRegistry.GetSemaphore: lower-casing is modelled for ASCII letters only.
- CaptionRetries.WaitedBounds: delays are real numbers, without the rounding or overflow of floats.
- Interrupting a blocking caption call from outside. Worker threads take queued calls in any order, and encoding an image takes one without keeping it.
- BodyLimit.Exchange.Call: a `receive` or `send` that fails itself, and the text and headers of the 413 response.
- TablePrinter.TableRoundTrip: the parser ends lines at "\n" only, as the printer does; other line terminators inside a cell stay part of its text.
- ImageNames.SaveImages: one save is one atomic step; the images directory is empty at first.
- Vision captions and the fallback file names of documents without a name.
- ExcelPictures.ExcelDocument.EnrichPictures: the check of the file's extension.
- ModelPool.ThreadSafeModelPool.GetConverter: the pool's lock is modelled by atomic sections, and a converter whose construction fails is never published.
