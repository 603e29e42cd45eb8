# Verification of the cache, its workload generator and the bundled test header

This project models three parts of the repository in Dafny and proves what they promise.

1. **The cache** (`Cache.dfy`, `CacheSpec.dfy`, `RequestSpec.dfy`, `RequestProcessor.dfy`, `RequestRuns.dfy`,
   `FifoWindow.dfy`, `ServerWindow.dfy`, `ReferenceCache.dfy`, `ReferenceServer.dfy`): the store with its 32-bit byte count, the FIFO evictor whose queue is never cleaned, and the HTTP
   handler. Entries left behind by a lookup that misses (null pointer, size 0) are kept in the model.
2. **The workload generator** (`GeneratorKeys.dfy`, `GeneratorSpec.dfy`, `Generator.dfy`): the table of uniquely keyed,
   weighted items and the choice of an item by a circular scan from a sliding start.
3. **Algorithms of the Catch header**: the section tracker and the loop that runs a test body again and again
   (`SectionTree.dfy`, `SectionVisits.dfy`, `SectionLosses.dfy`, `SteadySections.dfy`, `TrackerSpec.dfy`,
   `TrackerProof.dfy`, `Trackers.dfy`, `RunContext.dfy`), the XML encoder (`XmlEncode.dfy`, `XmlSafety.dfy`, `XmlDecoding.dfy`),
   `UnorderedEquals` (`UnorderedEquals.dfy`), the totals bar (`TotalsBar.dfy`) and `replaceInPlace`
   (`ReplaceInPlace.dfy`).

What the source updates in place is a class here. Every method of `Cache`, `FifoEvictor`, `RequestProcessor`, `Tracker`,
`TrackerContext` and `RunContext` is proved to have the effect of a function on values (in `CacheSpec`, `RequestSpec` and
`TrackerSpec`), and the properties are proved of those functions, over all inputs and over whole runs.

## Main results

- A run of a test case makes exactly the cycles that `SectionTree.Cycles` lists from the section tree alone, and then
  stops; no internal error is ever raised. A section, or the test case itself, may throw at any point between its
  subsections, before the first or after the last, and whether it does may depend on the sections that the cycle has
  entered below it up to there. No two cycles enter the same sections. Every leaf is entered, in document order,
  **exactly when** no section throws before a leaf below it that is due or while one is still to come, and the run does
  not stop too early (`SectionLosses.EveryLeafOnce`). If only leaves throw this always holds; the number of cycles is then
  the number of leaves, plus one for every section whose last subsection fails. For sections that always or never throw
  at their end the condition can be read off the shape of the tree (`SteadySections.SteadyLaw`).
- In every run of calls whatever, the cache holds just what a reference does that has no queue and knows only the calls
  made and how many of the touches in them are used up by evictions (`ReferenceCache.CacheIsReference`). So does the
  server (`ReferenceServer.ServerIsReference`), which without an evictor answers as a plain map of the PUTs there was room
  for (`ReferenceServer.WithoutEvictorIsPlain`).
- Over every run of requests, even if the 32-bit byte count wraps around, the server answers a GET with 404 or with the
  last value written to the key. While the last writes all fit together it answers every request just as a plain map
  would. The byte count is the sum of the sizes modulo 2^32 in every state, and the sum itself, within the limit, unless
  an addition has wrapped around.
- After sets of new keys within the limit and gets of keys already set, the cache holds exactly the longest suffix of the
  sets that fits, at every point of the run, **if and only if** every new size and those in that suffix add up to less
  than 2^32 (`FifoWindow.HoldsLongestSuffix`). So a server answers GETs with just the last PUTs that fit together
  (`ServerWindow.ServerHoldsLongestSuffix`).
- The generator's table holds just what was drawn for the indices from 0 on, as the keys tell, and no more than the budget
  takes; keys are never alike. Targets choose its items in exact proportion to their weights, from a start that slides
  over the table by one stride a call and comes round in its period.
- Undoing the entities in the encoder's output gives back the input exactly when that has no control characters and is
  made up of well-formed UTF-8, surrogates and one overlong sequence; the output is always safe. Undoing the hexadecimal
  escapes as well gives back every input, however broken, that does not look like an escape at any place
  (`XmlDecoding.DecodesBack`).

## Where the code differs from what it says

The model follows the code; each difference is proved.

- `cache/cache.hh:51-57` says that a value that cannot be made room for is not inserted. With an evictor, `set` comes to
  an end exactly if the value fits, as 32 bits tell, without some prefix of the queue, and loops for ever otherwise
  (`CacheSpec.EvictionEnds`); as long as the byte count is the sum of the sizes, that is if the size is within the limit
  or the addition wraps around at once (`CacheSpec.EvictionEndsWithinLimit`). Calls that do not end are excluded by a
  precondition. Without an evictor a refused `set` still drops the old value (`RequestRuns.SetKeepsEntries`).
- `cache/cache.hh:64-65` says that `del` deletes an object that is still there. It also answers yes for a key that was
  never set but was looked up (`RequestRuns.DeleteAfterMiss`).
- The 32-bit addition in `set` can wrap around, with an evictor (`CacheSpec.SetMayWrap`) and without
  (`CacheSpec.SetMayWrapWithoutEvictor`); the byte count is then no longer the sum of the sizes.
  `CacheSpec.SetKeepsCoherent` says exactly when. With an evictor a value then stays that the longest suffix that fits
  does not include (`FifoWindow.WrapKeepsTooMuch`).
- `README.md:12` says that the identifier in a key has six digits. It has six for the items 1 to 9 and the last nine of a
  million only, and more for all others (`GeneratorKeys.SixDigits`); keys are distinct all the same.
- `catch.hpp:12644` multiplies in 64 bits. Larger categories have no smaller shares exactly if no product can overflow,
  or if the total is above half the range, where all shares are 1 (`TotalsBar.SharesInOrder`); for every other total
  `TotalsBar.NextOverflows` gives two categories whose shares are in the wrong order.
- `catch.hpp:11116-11144` completes a test case whose last noted section is complete. So a test case that throws
  between two leaf sections ends its run with the first, and one that throws before its first section with one cycle
  (`SteadySections.ThrowingCaseEndsRun`, `SteadySections.ThrowingFirstEndsRun`). `SectionLosses.RunsOnMissesNone` says
  exactly when leaves are missed so.
- `catch.hpp:10517-10529` never returns for an empty pattern in a string that is not empty
  (`ReplaceInPlace.EmptyPatternNeverEnds`).
- `catch.hpp:11947` looks for `]]>` from the fourth byte on only, so an input that starts with it is written as it is
  (`XmlSafety.ClosesExactlyAtStart`).
- `catch.hpp:12011` lets one overlong UTF-8 sequence pass, the four-byte form of U+0800 (`XmlSafety.WrittenAsIs`).

## Model

| member | source | states |
|---|---|---|
| RunContexts.RunContext.RunTest | catch.hpp:9489-9496 | the run loop ends; the sections entered in its cycles are those of `Cycles`, a definition on the section tree that knows no tracker states, or as many of them as there were before the run was aborted; no tracker is ever closed in an illogical state |
| RunContexts.RunContext.RunCycle | catch.hpp:9492-9496 | one turn of the loop has the effect of `Cycle` and tells whether the test case is successfully completed |
| RunContexts.RunContext.RunCurrentTest | catch.hpp:9690-9741 | the body runs once, an exception ends here, the test case's tracker is closed in any event and unfinished sections are torn down without touching trackers |
| RunContexts.RunContext.RunSection | catch.hpp:9878-9898 | a section object runs its body only if it is included, and ends normally or early |
| RunContexts.RunContext.SectionStarted | catch.hpp:9553-9566 | a section is included exactly if its tracker is open after it was acquired; only then it becomes active |
| RunContexts.RunContext.SectionEnded | catch.hpp:9587-9598 | the last active section is closed and popped, if there is one |
| RunContexts.RunContext.SectionEndedEarly | catch.hpp:9600-9608 | the first section an exception leaves fails, the sections around it are closed |
| RunContexts.RunContext.HandleUnfinishedSections | catch.hpp:9749-9758 | with no section active, tearing down changes no tracker |
| Trackers.TrackerContext.Acquire | catch.hpp:11178-11199 | the child with this name and location is found or added, and opened unless the cycle is over or it is complete |
| Trackers.TrackerContext.AddChild | catch.hpp:11078-11080 | a new tracker joins its parent's children; parent links, child links and paths stay consistent |
| Trackers.TrackerContext.StartRun | catch.hpp:11025-11030 | a fresh root tracker and nothing else; no tracker is current |
| Trackers.TrackerContext.StartCycle | catch.hpp:11038-11041 | the root becomes current and the cycle runs; no tracker changes |
| Trackers.Tracker.FindChild | catch.hpp:11082-11092 | a child with this name and location is returned if and only if there is one |
| Trackers.Tracker.OpenChild | catch.hpp:11098-11104 | the trackers upwards run their children, as far as the first that did already |
| Trackers.Tracker.Open | catch.hpp:11109-11114 | the tracker is executing and current, its ancestors run their children |
| Trackers.Tracker.Close | catch.hpp:11116-11144 | everything open below is closed first; the tracker is completed, or left for another run; its parent is current and the cycle over |
| Trackers.Tracker.Fail | catch.hpp:11145-11154 | the tracker has failed, its parent needs another run and is current, the cycle is over |
| Trackers.Tracker.MoveToParent | catch.hpp:11156-11159 | the parent is current and the cycle over; no tracker changes |
| TrackerProof.CycleVisit | catch.hpp:11098-11199 | in every state between cycles, one cycle is exactly the first of the cycles that are left, and while the test case is not complete one is left |
| TrackerProof.SectionVisit | catch.hpp:11116-11154 | running an incomplete section makes its first remaining visit, wherever it or a section in it throws, passes an exception on exactly if that visit has one, and leaves all trackers outside as they were but the parent |
| TrackerProof.RunMakesAllVisits | catch.hpp:9492-9496 | after k cycles exactly the first k of the cycles have been made, for every k, and the test case is completed exactly after the last |
| SectionVisits.VisitsAreLeafPaths | catch.hpp:11116-11132 | if nothing throws, the cycles are the root-to-leaf paths in document order: one cycle for each leaf |
| SectionVisits.VisitsOnce | catch.hpp:11145-11151 | wherever sections throw, depending on what was entered below them, no two cycles enter the same sections, so no leaf is entered twice |
| SectionVisits.NumberOfCycles | catch.hpp:11145-11154 | if only leaves throw, there is one cycle for each leaf and one for each section whose last subsection fails |
| SectionLosses.EveryLeafOnce | catch.hpp:9600-9608 | every leaf is entered if and only if no section throws before a leaf below it that is due or while one is still to come, and the run does not stop too early, and then exactly once and in document order; leaf failures are no such case |
| SectionLosses.LostLeaf | catch.hpp:11145-11151 | otherwise some leaf is never entered |
| SectionLosses.LateCutsOffNone | catch.hpp:11145-11151 | the visits a section cuts off by throwing include a leaf exactly if it throws before one that is due or while one is still to come |
| SectionLosses.RunsOnMissesNone | catch.hpp:11116-11144 | the visits due that a run does not make include a leaf exactly if the test case throws before one that is due, or the run stops with one still to come |
| SteadySections.SteadyLaw | catch.hpp:11145-11151 | if every section throws at its end always or never, no leaf is lost exactly if in each that throws all subsections but the last throw, and so on down the last |
| SteadySections.ThrowingParentLosesLeaf | catch.hpp:11145-11151 | a section that throws after two plain leaves never gets to the second |
| SteadySections.ThrowingFirstEndsRun | catch.hpp:11126-11128 | a test case that throws before anything else makes one cycle and enters no section |
| SteadySections.ThrowingCaseEndsRun | catch.hpp:11129-11132 | a test case that throws between two plain leaves never gets to the second |
| Caches.FifoEvictor.TouchKey | cache/fifo_evictor.cc:11-13 | the key is queued behind all others, again if it was queued before |
| Caches.FifoEvictor.Evict | cache/fifo_evictor.cc:14-21 | the key queued first is returned and unqueued, the empty key if none is |
| Caches.Cache.Set | cache/cache_lib.cc:31-60 | the whole new state, and the stored bytes: the value up to its NUL, less its last character if it is as long as the size, a NUL in the last byte, anything in between |
| Caches.Cache.CopyValue | cache/cache_lib.cc:45-51 | the copy loop stays within the buffer and copies the value up to its NUL; a value as long as the buffer loses its last character |
| Caches.Cache.Get | cache/cache_lib.cc:63-69 | the stored pair, or null and 0 leaving an empty entry; the key is touched in any case |
| Caches.Cache.Del | cache/cache_lib.cc:71-79 | the entry is removed and its size subtracted; true exactly if there was one, empty ones included |
| Caches.Cache.Reset | cache/cache_lib.cc:86-92 | no entries and no bytes, but the queue as it was |
| Caches.CString | cache/cache_lib.cc:46-50 | the characters before the first NUL |
| CacheSpec.SetKeepsCoherent | cache/cache_lib.cc:31-60 | the byte count stays the sum of the sizes within the limit if and only if the set is refused or its addition does not wrap around 32 bits |
| CacheSpec.SetMayWrap | cache/cache_lib.cc:56 | two sets of half the range lead to a byte count of zero |
| CacheSpec.SetMayWrapWithoutEvictor | cache/cache_lib.cc:38 | a value of almost 2^32 bytes is stored in a cache with room for ten |
| CacheSpec.SetKeepsSound | cache/cache_lib.cc:31-60 | the byte count stays the sum of the sizes modulo 2^32, and every key queued, in every set that ends |
| CacheSpec.OthersKeep | cache/cache_lib.cc:63-92 | so it does in get, del and reset, and the count stays the sum itself if it was |
| CacheSpec.DelKeepsCoherent | cache/cache_lib.cc:71-79 | after del the count is the sum of the sizes left: the subtraction never underflows |
| CacheSpec.SetWithoutEvictor | cache/cache_lib.cc:31-60 | without an evictor, a set drops the old value, stores the new one exactly if there is room beside the others, and leaves all others as they are |
| CacheSpec.SetWithEvictor | cache/cache_lib.cc:31-60 | with one, it stores the value, queues the key behind what is left, and loses of the others just those in the shortest queue prefix without which the value fits |
| CacheSpec.RoomWithinLimit | cache/cache_lib.cc:41-43 | the eviction loop ends for every size within the limit, in every state there can be, even after a wrap-around |
| CacheSpec.EvictionKeeps | cache/cache_lib.cc:41-43 | the eviction loop keeps the count right |
| CacheSpec.EvictsShortestPrefix | cache/cache_lib.cc:38-44 | exactly the keys of the shortest queue prefix are evicted without which the new value fits, as 32 bits tell, in every state; without a wrap-around, as the plain sums tell |
| CacheSpec.EvictionEnds | cache/cache_lib.cc:41-43 | in every state, even after a wrap-around, the eviction loop ends if and only if the value fits, as 32 bits tell, without some prefix of the queue |
| CacheSpec.EvictionEndsWithinLimit | cache/cache_lib.cc:41-43 | while the byte count is the sum of the sizes, that is so if and only if the size is within the limit or the addition wraps around at once |
| ReferenceCache.CacheIsReference | cache/cache_lib.cc:31-92 | in every run of calls the cache finds just what the reference holds, counts its sizes modulo 2^32, and has the touches queued that are not used up |
| ReferenceCache.EndsAsInReference | cache/cache_lib.cc:41-43 | a set comes to an end exactly when the size fits where the reference finds that it does |
| ReferenceServer.ServerIsReference | cache/request_processor.hh:43-170 | over every run, each answer is the one the reference gives from the requests alone |
| ReferenceServer.WithoutEvictorIsPlain | cache/request_processor.hh:58-167 | without an evictor, every answer is that of a plain map of the PUTs there was room for, as its own sums tell |
| FifoWindow.HoldsLongestSuffix | cache/cache_lib.cc:31-69 | in runs of sets of new keys within the limit and gets of keys already set, or of PUTs and GETs, the values held are at every point exactly the longest suffix of the sets whose sizes fit, if and only if every new size and those in that suffix add up to less than 2^32 |
| FifoWindow.SetIsFifo | cache/cache_lib.cc:31-60 | a set of a new key moves the window just as far as it must, whatever duplicates and empty entries are queued, if and only if the sizes add up to less than 2^32 |
| FifoWindow.WrapKeepsTooMuch | cache/cache_lib.cc:41-43 | otherwise the first value of the window stays, though it and those behind it do not fit |
| ServerWindow.ServerHoldsLongestSuffix | cache/request_processor.hh:58-122 | after a run of PUTs of new keys and GETs of keys already put, a server with an evictor answers a GET with the value exactly for the keys in the longest suffix of the PUTs that fits, and with 404 for all others |
| RequestProcessors.RequestProcessor.HandleRequest | cache/request_processor.hh:43-170 | the response and the new cache for every verb |
| RequestProcessors.RequestProcessor.GetLine | cache/request_processor.hh:94-95 | the characters before the next slash, and what is left of the stream |
| RequestRuns.Step | cache/request_processor.hh:58-167 | every request keeps the byte count the sum of the sizes modulo 2^32 and the values held the last ones written, and its response is that of the plain server or of one that has forgotten the key |
| RequestRuns.RunsAreTruthful | cache/request_processor.hh:58-167 | over every run in which every PUT comes to an end, a GET answers 404 or exactly the last value PUT since the last DELETE or reset, 204 is answered for written keys only, DELETE answers 200 for known keys only, HEAD tells the sum of the sizes held modulo 2^32 |
| RequestRuns.AllFitIsTaken | cache/cache_lib.cc:41-43 | every PUT of a run comes to an end if, with an evictor, all values are within the limit |
| RequestRuns.CountIsExact | cache/cache_lib.cc:31-92 | the byte count is the sum of the sizes and within the limit at every point of a run if and only if no addition in it wraps around |
| RequestRuns.SetKeepsEntries | cache/cache_lib.cc:31-60 | a set leaves of the other keys only what was there, and the new value exactly if it is not refused; the old value is gone even then |
| RequestRuns.NothingLostWhileAllFits | cache/request_processor.hh:58-167 | while all last writes fit together, every request is answered as by a plain map: GET with the last write, 201 or 204 for a PUT and 200 or 404 for a DELETE as the key is new or known, HEAD with the room the last writes take |
| RequestRuns.PutThenGet | cache/request_processor.hh:88-122 | in every state, a GET right after a PUT answers its value and the size is its length plus one, unless the set was refused for lack of an evictor; then it answers 404 |
| RequestRuns.ShownExactly | cache/request_processor.hh:69-72 | a stored value is shown in full, whatever else was in the buffer, if and only if its size is its length plus one |
| RequestRuns.ShownUpTo | cache/request_processor.hh:69-72 | what is shown ends at the first NUL, or one before the end |
| RequestRuns.DeleteAfterMiss | cache/request_processor.hh:125-139 | DELETE answers 200 for any key that was looked up before, even if never written |
| RequestRuns.PutTargetRoundTrip | cache/cache_client.cc:145-149 | the server reads back the pair the client sent if and only if neither part contains a slash |
| RequestRuns.LineSplits | cache/request_processor.hh:94-95 | one getline takes everything before the first slash and leaves everything behind it |
| GeneratorKeys.KeyTellsIndex | gen.cc:32-34 | the item's index can be read off its key, whatever the padding and the filler |
| GeneratorKeys.SixDigits | gen.cc:32-34 | the identifier has six digits if and only if the index is 1 to 9 or one of the last nine; index 0 has seven |
| GeneratorKeys.IdentifierLength | gen.cc:32-34 | the identifier has as many zeros in front as the logarithm of a million less the index says, rounded down |
| GeneratorKeys.FillersAreNoKey | gen.cc:79-84 | the key of a dummy delete is no key of the table |
| Generators.Generator.constructor | gen.cc:13-56 | the loop ends; the table is empty just for a negative budget, otherwise the values exceed it by at most 5000; keys are pairwise distinct; the total is the sum of the weights and fits 32 bits; weight, value size and key of every item are those drawn for the index its key tells, and the last one was needed to exceed the budget |
| Generators.Generator.FillTable | gen.cc:28-52 | the loop by itself, before the table is shuffled |
| Generators.ItemIsDrawn | gen.cc:29-52 | the weight is the one drawn, the value size and the length of the filler are the nearest in range to what was drawn, and the parts of the key are as they should be |
| Generators.Generator.Scan | gen.cc:96-103 | the scan stays in bounds, ends within one lap and stops at the first item whose circular prefix sum reaches the target |
| Generators.Generator.Choose | gen.cc:91-110 | the item chosen from the start that the locality counter gives, and the counter after it |
| Generators.Generator.GenReq | gen.cc:64-115 | the method the draws give; dummy deletes leave the counter alone, all other requests are for the item chosen |
| GeneratorSpec.FullCircle | gen.cc:49 | the weights once round the table are the total, from any start |
| GeneratorSpec.ChosenForItsShare | gen.cc:96-103 | an item is chosen exactly for the targets above the weights before it and within its own |
| GeneratorSpec.ChosenInProportion | gen.cc:91-103 | over all targets an item is chosen as often as its weight lies within them, and the first once more |
| GeneratorSpec.StartOfCall | gen.cc:94-107 | the counter of the j-th choice is j modulo the ceiling of range over shift; its start is inside the table, so many strides from the first item rounded down; a period starts with the first item, never goes back, moves by one stride up to rounding and ends within a stride of the last item |
| XmlEncode.EncodeTo | catch.hpp:11935-12027 | the output is the encoding, unit by unit |
| XmlEncode.ValidSequence | catch.hpp:11976-12017 | the multi-byte checks, computed in a loop that never reads beyond the string |
| XmlSafety.WrittenAsIs | catch.hpp:11982-12017 | beyond ASCII exactly the characters of well-formed UTF-8 (section 4 of RFC 3629), the surrogates and one overlong sequence are written as they are |
| XmlSafety.RoundTrip | catch.hpp:11939-12026 | undoing the entities gives back the input if and only if it has no control characters and is made up of ASCII and the sequences that are written as they are |
| XmlSafety.WellFormedRoundTrip | catch.hpp:11939-12026 | so it does for every well-formed UTF-8 string without control characters |
| XmlDecoding.HexReadsBack | catch.hpp:11924-11928 | the two digits of an escape, read as hexadecimal, are the byte |
| XmlDecoding.DecodesBack | catch.hpp:11935-12027 | undoing entities and escapes gives back the input, control characters and broken UTF-8 included, if and only if it looks like an escape at no place |
| XmlDecoding.Unchanged | catch.hpp:11935-12027 | a string is written as it is if and only if it is made up of ASCII and the sequences written as they are, without control characters, less-than signs, ampersands, quotes in an attribute and ends of CDATA sections behind the first byte |
| XmlSafety.OutputIsSafe | catch.hpp:11939-12026 | for every byte string, no raw less-than sign, no ampersand outside an entity, no quote in an attribute, no control character, and only such multi-byte sequences |
| XmlSafety.ClosesExactlyAtStart | catch.hpp:11945-11951 | the output contains the end of a CDATA section if and only if the input starts with it |
| UnorderedEquals.Match | catch.hpp:2842-2870 | true if and only if the vectors are equal as multisets |
| UnorderedEquals.CountRange | catch.hpp:2744-2753 | how often an item occurs in a range |
| UnorderedEquals.Contains | catch.hpp:2754-2762 | whether an item occurs in a range |
| TotalsBar.TotalsDivider | catch.hpp:13072-13092 | the bars fill 79 columns and each is empty exactly if its count is zero, whatever overflows in 64 bits; they are the shares with one column after another given to or taken from a longest bar, and near their shares if nothing overflows; both loops end |
| TotalsBar.SpareGoToLongest | catch.hpp:13076-13077 | all missing columns go to one bar: to the passed if none is longer, else to the expected failures, else to the failures |
| TotalsBar.LongestLose | catch.hpp:13078-13079 | a bar that loses a column was a longest one, and of equal ones the last loses first |
| TotalsBar.RatioBounds | catch.hpp:12643-12646 | a share is empty exactly for an empty category, and off by less than one column if the 64-bit product does not overflow |
| TotalsBar.SharesInOrder | catch.hpp:12643-12646 | larger categories have no smaller shares if and only if no product can overflow or all shares are 1 |
| TotalsBar.NextOverflows | catch.hpp:12644 | for every other total, the largest category whose product does not overflow has a larger share than the next one |
| TotalsBar.FindMax | catch.hpp:12648-12655 | the one returned is a largest |
| ReplaceInPlace.Replace | catch.hpp:10517-10529 | the pieces between the leftmost occurrences in the original joined by the replacement, even if that contains the pattern; true exactly if the pattern occurs; the empty pattern in the empty string included |
| ReplaceInPlace.EmptyPatternNeverEnds | catch.hpp:10520-10526 | for an empty pattern in a string that is not empty, the loop goes on after any number of turns |
| ReplaceInPlace.PiecesOfString | catch.hpp:10517-10529 | the pieces joined by the pattern are the original, none contains the pattern, and each ends where the pattern first occurs |

## Left out

- RunContexts.RunContext.RunTest: section filters are not modelled, and whether a run is being aborted is a function of the number of cycles made, where the source counts failed assertions.
- Generator and index trackers and the reporters of the test runner: a run here has section trackers only.
- A section that throws in a later cycle at a point that an earlier cycle has passed having entered the same sections below it: the answer depends on the point and on those sections only.
- Siblings with the same name and location: they share one tracker, and the header asks for distinct ones.
- SectionTree.Section: what a section does besides its subsections and its exception is not modelled.
- Caches.Cache.Set: requires a value no longer than the size, a size that is not zero and an eviction loop that ends, because the code otherwise writes beyond its buffer or does not return.
- Caches.Cache: stored values are strings; the lifetime of the buffers and who frees them is not modelled, nor are hash buckets, load factor and the custom hasher.
- RequestSpec.Handle: requires a target that is not empty and a PUT target without a NUL, which HTTP does not allow; JSON encoding, headers other than those named and keep-alive are not modelled.
- Generators.Generator: distributions, the weight formula and the shuffle are inputs, any values in range and any permutation; the budget is below two million, as the padding formula needs; real arithmetic is exact.
- XmlEncode.ValidSequence: 32-bit shifts are modelled, stream state is not.
- TotalsBar.TotalsDivider: requires three counts whose sum has 64 bits.
- ReplaceInPlace.Replace: requires a string that is empty if the pattern is, because the code does not return otherwise.
- Sockets, sessions, threads, UDP and TCP handling, the benchmark driver, and the rest of the header.
