# ifmo-java-advanced in Dafny

This project models the sequential core of a set of Java course exercises and proves what that
core promises. The modules follow the exercises:

- `ArraySet`: both versions of an immutable `NavigableSet` kept as a strictly ascending list.
  It covers construction through a `TreeSet`, Java's `Collections.binarySearch`, the four
  neighbour-index functions, `lower`/`floor`/`ceiling`/`higher`, `contains`, `first`/`last`,
  `pollFirst`/`pollLast`, bounded sub-sets with the `subSet`/`headSet`/`tailSet` overloads, and
  `descendingSet`. The earlier version's `compare` and `descendingSet` carry the suffix `V1`.
- `ReversedListView`: the index-mirroring list view that unwraps a view instead of nesting it.
  Both copies of the class are identical, and one model serves both.
- `FNV`: the 32-bit FNV-1 hash of a stream. Java `int` arithmetic becomes `bv32`, which wraps
  modulo 2^32. The stream becomes a `ChunkedStream`, whose `Read` fills a 1024-byte `array` chunk
  by chunk, as `InputStream.read(buffer)` does.
- `IterativeParallelism`: `split` as the source's loop, and the sequential meaning of `run`
  for each task and merger pair: `join`, `filter`, `map`, `maximum`, `minimum`, `all` and `any`.
- `WebCrawler`:
  - `HostDownloadQueue` is a class with the source's `taskQueue` and `submitted` fields.
  - One `download(url, depth)` call's collections (`processed`, `downloaded` and `errors`) are
    the state of a `Crawl` class. `process`, the download task, the extracting task and the wait
    for all tasks are methods that update it.
  - The crawler's host queues (the `taskQueues` field of the crawler, which outlives a call) are
    held in the same state. There they start empty for each call.
  - The executors are replaced by explicit transitions: a task is admitted, dispatched, and then
    finished by a method call.
  - Ghost state records the remaining depth every url was processed at and the page it was
    reached from. So the crawl's result is tied to walks from the seed.
- `CrawlOrder`: one schedule of the crawl's own transitions over a six-page web. In it a url
  first reached along a longer path keeps too little depth, and a page three hops from the seed
  is never reported at depth 4. Over a plain chain, by contrast, every order reaches its end.
- `BreadthFirst`: the corrected crawl, level by level. It reports exactly the urls within
  depth - 1 hops of the seed.
- `StudentDB`: every query of both versions over a sequence of students. This includes
  `NAME_COMPARATOR`, the groupings, the maxima with their tie-breaks, the last-name to
  first-name map and `getMostPopularName`.
- `Implementor`: the text builders of both versions, the input check of `implement`, and the two
  ways the versions collect abstract methods. The later version scans up the superclass chain
  with a loop. The earlier version recurses over the class hierarchy while it updates two sets
  in place, and that recursion is the class `MethodCollector`.
- `Orders` holds the Java comparator contract (a total preorder), `String.compareTo`,
  `Integer.compare`, a stable sort, and the contents of a `TreeSet` filled in encounter order.
  `Seqs` holds concatenation of a list of lists, and `Wrappers` holds `Option` and `Result`.

Exceptions are modelled as the `Failure` case of a `Result`, and `null` as `None`.

## Model

A member that models both versions of a class has one row, which cites one file. The third column
then gives the other version's lines; a bare `ArraySet.java`, `ReversedListView.java`,
`StudentDB.java` or `Implementor.java` there is the earlier file directly under
`src/ru/ifmo/rain/alekperov/`.

| member | source | states |
|---|---|---|
| Orders.StringOrder | src/ru/ifmo/rain/alekperov/student/StudentDB.java:17-19 | `String.compareTo`, which the name comparator applies to last and first names and which compares the UTF-16 code units of the two strings, is a lawful comparator whose ties are exactly the equal strings |
| Orders.CompareStringsZero | src/ru/ifmo/rain/alekperov/student/StudentDB.java:17-19 | `compareTo` is zero exactly when the two strings are equal |
| Orders.Utf16Injective | src/ru/ifmo/rain/alekperov/student/StudentDB.java:17-19 | two strings with the same UTF-16 code units are the same string, so comparing units ties nothing else |
| Orders.SurrogatesSortLow | src/ru/ifmo/rain/alekperov/student/StudentDB.java:17-19 | the order is that of UTF-16 units and not of code points: "\uFFFF" comes after the string of U+10000, whose code point is larger but whose first unit is the surrogate 0xD800 |
| Orders.TreeSetOfSpec | src/ru/ifmo/rain/alekperov/arrayset/ArraySet.java:19-22 | a `TreeSet` filled from a sequence is strictly ascending; it holds exactly the first element of each class of mutually equal elements, and an equal element for every input |
| Orders.SortSorted | src/ru/ifmo/rain/alekperov/student/StudentDB.java:73 | `sorted(order)` under a lawful order gives a sorted permutation of the stream |
| Orders.InsertTies | src/ru/ifmo/rain/alekperov/student/StudentDB.java:73 | inserting an element puts it in front of the elements tied with it, which keep their order, so the sort that inserts each head into the sorted rest keeps tied elements in input order |
| Orders.SortStable | src/ru/ifmo/rain/alekperov/student/StudentDB.java:73 | the sort is stable, as `Stream.sorted` is on an ordered stream: the elements tied with any e come out in the order they went in |
| ReversedListView.Get | src/ru/ifmo/rain/alekperov/arrayset/ReversedListView.java:21-24 | `get` answers exactly for indices in [0, size) and fails, as the underlying list does, everywhere else |
| ReversedListView.MakeViewSize | src/ru/ifmo/rain/alekperov/arrayset/ReversedListView.java:16-19 | a view has the size of the list it was built from; the earlier version at ReversedListView.java:16-19 does the same |
| ReversedListView.MakeViewGet | src/ru/ifmo/rain/alekperov/arrayset/ReversedListView.java:21-24 | index i of a new view is index size-1-i of the list it was built from, whether that list is plain or itself a view; the earlier version at ReversedListView.java:21-24 does the same |
| ReversedListView.MakeViewNoNesting | src/ru/ifmo/rain/alekperov/arrayset/ReversedListView.java:11-14 | views never nest: the view stores a view's inner list, and its flag is true over a plain list and the negated inner flag over a view; the earlier version at ReversedListView.java:11-14 does the same |
| ReversedListView.DoubleReversal | src/ru/ifmo/rain/alekperov/arrayset/ReversedListView.java:12-13 | reversing twice gives back the original size and the original element at every index; the earlier version at ReversedListView.java:12-13 does the same |
| ReversedListView.ReversedElements | src/ru/ifmo/rain/alekperov/arrayset/ReversedListView.java:21-24 | the elements of a view over a plain list are that list back to front |
| ArraySet.ConstructorSpec | src/ru/ifmo/rain/alekperov/arrayset/ArraySet.java:15-27 | the constructed set is valid (lawful order, strictly ascending storage) and keeps the comparator; every collection element has an equal element stored, and what is stored is the first of its class in encounter order; the earlier version at ArraySet.java:11-27 does the same |
| ArraySet.EmptySpec | src/ru/ifmo/rain/alekperov/arrayset/ArraySet.java:11-13 | the default constructor gives the empty set with a null comparator |
| ArraySet.JavaBinarySearchSpec | src/ru/ifmo/rain/alekperov/arrayset/ArraySet.java:41-44 | `Collections.binarySearch` on strictly ascending storage: a non-negative result indexes an equal element; a result -(p+1) has every element before p less than the key and every later element greater |
| ArraySet.BinarySearchSpec | src/ru/ifmo/rain/alekperov/arrayset/ArraySet.java:41-44 | `binarySearch` is the number of stored elements less than e, so it lies in [0, size]; an equal element is stored exactly when the element at that index is equal to e |
| ArraySet.CompareVersionsAgree | src/ru/ifmo/rain/alekperov/ArraySet.java:64-69 | the earlier `compare` (whose empty `if` has no effect) and the later `compare` both equal the order that binary search uses: the comparator, or the natural order when it is null; the later `compare` is `Collections.reverseOrder(comparator).reversed()` (arrayset/ArraySet.java:64-66) |
| ArraySet.CeilingIndexSpec | src/ru/ifmo/rain/alekperov/arrayset/ArraySet.java:46-48 | `ceilingIndex` is the first index whose element is not less than e; the earlier version at ArraySet.java:46-48 does the same |
| ArraySet.HigherIndexSpec | src/ru/ifmo/rain/alekperov/arrayset/ArraySet.java:50-53 | `higherIndex` is the first index whose element is greater than e; the earlier version at ArraySet.java:50-53 does the same |
| ArraySet.FloorIndexSpec | src/ru/ifmo/rain/alekperov/arrayset/ArraySet.java:55-58 | `floorIndex` is the last index whose element is not greater than e, one before `higherIndex`; the earlier version at ArraySet.java:55-58 does the same |
| ArraySet.LowerIndexSpec | src/ru/ifmo/rain/alekperov/arrayset/ArraySet.java:60-62 | `lowerIndex` is the last index whose element is less than e, one before `ceilingIndex`; the earlier version at ArraySet.java:60-62 does the same |
| ArraySet.GetOrNull | src/ru/ifmo/rain/alekperov/arrayset/ArraySet.java:29-39 | `getOrNull` gives the stored element exactly for an index in [0, size), and null otherwise |
| ArraySet.LowerSpec | src/ru/ifmo/rain/alekperov/arrayset/ArraySet.java:90-93 | `lower(e)` is null exactly when no stored element is less than e; otherwise it is the greatest stored element less than e; the earlier version at ArraySet.java:93-96 does the same |
| ArraySet.FloorSpec | src/ru/ifmo/rain/alekperov/arrayset/ArraySet.java:95-98 | `floor(e)` is null exactly when no stored element is at most e; otherwise it is the greatest such element; the earlier version at ArraySet.java:98-101 does the same |
| ArraySet.CeilingSpec | src/ru/ifmo/rain/alekperov/arrayset/ArraySet.java:100-103 | `ceiling(e)` is null exactly when no stored element is at least e; otherwise it is the least such element; the earlier version at ArraySet.java:103-106 does the same |
| ArraySet.HigherSpec | src/ru/ifmo/rain/alekperov/arrayset/ArraySet.java:105-108 | `higher(e)` is null exactly when no stored element is greater than e; otherwise it is the least such element; the earlier version at ArraySet.java:108-111 does the same |
| ArraySet.ContainsSpec | src/ru/ifmo/rain/alekperov/arrayset/ArraySet.java:115-120 | `contains(o)` holds exactly when some stored element compares equal to o; the earlier version at ArraySet.java:118-121 does the same |
| ArraySet.FirstLastSpec | src/ru/ifmo/rain/alekperov/arrayset/ArraySet.java:173-189 | `first()` and `last()` throw NoSuchElementException exactly on the empty set; otherwise they return a stored element not greater (not less) than every stored element; the earlier version at ArraySet.java:174-190 does the same |
| ArraySet.PollFirst | src/ru/ifmo/rain/alekperov/arrayset/ArraySet.java:191-194 | `pollFirst()` always throws UnsupportedOperationException, so the set is never changed; the earlier version at ArraySet.java:192-195 does the same |
| ArraySet.PollLast | src/ru/ifmo/rain/alekperov/arrayset/ArraySet.java:196-199 | `pollLast()` always throws UnsupportedOperationException; the earlier version at ArraySet.java:197-200 does the same |
| ArraySet.StartIndexSpec | src/ru/ifmo/rain/alekperov/arrayset/ArraySet.java:74-76 | the sub-set start index divides the storage: the indices from it on are exactly those whose elements lie above the lower bound, inclusive or not |
| ArraySet.EndIndexSpec | src/ru/ifmo/rain/alekperov/arrayset/ArraySet.java:78-80 | the indices before the sub-set end index are exactly those whose elements lie below the upper bound, inclusive or not |
| ArraySet.GetSubSetMembers | src/ru/ifmo/rain/alekperov/arrayset/ArraySet.java:82-88 | the slice [start, max(start, end)) holds exactly the stored elements within both bounds |
| ArraySet.GetSubSetSpec | src/ru/ifmo/rain/alekperov/arrayset/ArraySet.java:68-88 | `getSubSet` throws IllegalArgumentException exactly when both bounds are given and from > to; otherwise it returns a valid set with the same comparator, a contiguous slice of the storage holding exactly the stored elements within the bounds; the earlier version at ArraySet.java:71-91 does the same |
| ArraySet.DefaultBoundsSpec | src/ru/ifmo/rain/alekperov/arrayset/ArraySet.java:137-166 | `subSet(x, y)` is [x, y) and throws only when x > y; `headSet(y)` is everything below y and `tailSet(x)` everything from x on, and neither of them throws; the earlier version at ArraySet.java:138-167 does the same |
| ArraySet.ReversedStorage | src/ru/ifmo/rain/alekperov/arrayset/ArraySet.java:129 | the storage seen through a `ReversedListView` is the storage back to front |
| ArraySet.DescendingSetContains | src/ru/ifmo/rain/alekperov/arrayset/ArraySet.java:127-130 | the descending set contains exactly what the set contains |
| ArraySet.DescendingSetSpec | src/ru/ifmo/rain/alekperov/arrayset/ArraySet.java:127-130 | for a null or non-null comparator alike, `descendingSet` is valid, holds the elements in reverse order and contains exactly what the set contains; taken twice it gives back the storage and the order |
| ArraySet.DescendingSetV1Spec | src/ru/ifmo/rain/alekperov/ArraySet.java:128-131 | with a non-null comparator, the earlier `descendingSet` is valid and has the same order as the later one |
| ArraySet.DescendingSetV1LosesElements | src/ru/ifmo/rain/alekperov/ArraySet.java:128-131 | with a null comparator, the earlier `descendingSet` of {1, 2} stores [2, 1] under the ascending order, and `contains(1)` is false on it; the later version finds 1 |
| FNV.TestVectors | src/ru/ifmo/rain/alekperov/walk/FNV.java:8-9 | the prime and offset basis give the published FNV-1 values for "a" and "foobar"; the FNV-1a order of the step would give another value for "a" |
| FNV.EmptyStreamHash | src/ru/ifmo/rain/alekperov/walk/FNV.java:11-22 | an empty stream, however its reads are cut, hashes to the offset basis 0x811c9dc5 |
| FNV.HashFromAppend | src/ru/ifmo/rain/alekperov/walk/FNV.java:16-19 | hashing a concatenation is hashing the first part and continuing from that value with the second |
| FNV.HashChunksIsHashOfFlatten | src/ru/ifmo/rain/alekperov/walk/FNV.java:14-20 | hashing chunk by chunk equals folding the step over the concatenation of the chunks |
| FNV.SplitIndependent | src/ru/ifmo/rain/alekperov/walk/FNV.java:14-20 | two ways of cutting the same bytes into reads give the same hash |
| FNV.ChunkedStream.Read | src/ru/ifmo/rain/alekperov/walk/FNV.java:15 | `read(buffer)` puts the next chunk at the front of the buffer and returns its length, or returns -1 at the end of the stream |
| FNV.HashBuffer | src/ru/ifmo/rain/alekperov/walk/FNV.java:16-19 | the inner loop folds exactly the first c bytes of the buffer into the hash |
| FNV.Get32BitHash | src/ru/ifmo/rain/alekperov/walk/FNV.java:11-22 | `get32BitHash` reads the stream to its end and returns the FNV-1 hash of every byte the stream delivers |
| IterativeParallelism.Split | src/ru/ifmo/rain/alekperov/concurrent/IterativeParallelism.java:27-37 | the loop of `split` produces exactly the chunks `Chunks` describes: ArithmeticException for zero threads, no chunks for negative threads, and otherwise one chunk per step |
| IterativeParallelism.ChunksCover | src/ru/ifmo/rain/alekperov/concurrent/IterativeParallelism.java:27-37 | `split` yields min(size, threads) chunks whose concatenation in order is the list |
| IterativeParallelism.ChunkSizes | src/ru/ifmo/rain/alekperov/concurrent/IterativeParallelism.java:30-33 | chunk k has size / threads elements, plus one when k < size % threads, so no chunk is empty and two chunk sizes differ by at most one |
| IterativeParallelism.Run | src/ru/ifmo/rain/alekperov/concurrent/IterativeParallelism.java:39-73 | filling the results list position by position gives the merger applied to the per-chunk results, in chunk order |
| IterativeParallelism.RunOnChunks | src/ru/ifmo/rain/alekperov/concurrent/IterativeParallelism.java:39-73 | with positive threads, every chunk meets what a task demands of its chunk and the merger sees one result per chunk, in chunk order |
| IterativeParallelism.JoinChunks | src/ru/ifmo/rain/alekperov/concurrent/IterativeParallelism.java:79-81 | joining each chunk and then joining the results is joining the whole list |
| IterativeParallelism.FilterChunks | src/ru/ifmo/rain/alekperov/concurrent/IterativeParallelism.java:87-89 | filtering each chunk and concatenating is filtering the whole list |
| IterativeParallelism.MapChunks | src/ru/ifmo/rain/alekperov/concurrent/IterativeParallelism.java:95-97 | mapping each chunk and concatenating is mapping the whole list |
| IterativeParallelism.Join | src/ru/ifmo/rain/alekperov/concurrent/IterativeParallelism.java:79-81 | `join` is the concatenation of all values for positive threads, ArithmeticException for zero threads, and "" for negative threads |
| IterativeParallelism.FilterValues | src/ru/ifmo/rain/alekperov/concurrent/IterativeParallelism.java:87-89 | `filter` is the whole list filtered for positive threads, ArithmeticException for zero threads, and empty for negative threads |
| IterativeParallelism.MapValues | src/ru/ifmo/rain/alekperov/concurrent/IterativeParallelism.java:95-97 | `map` is the whole list mapped for positive threads, ArithmeticException for zero threads, and empty for negative threads |
| IterativeParallelism.MaxOfSpec | src/ru/ifmo/rain/alekperov/concurrent/IterativeParallelism.java:103-108 | `Stream.max` of a non-empty stream is one of its elements, not less than any of them |
| IterativeParallelism.Maximum | src/ru/ifmo/rain/alekperov/concurrent/IterativeParallelism.java:103-108 | `maximum` throws NoSuchElementException on an empty list. Otherwise it returns an element not less than any value for positive threads, throws ArithmeticException for zero threads, and throws NoSuchElementException for negative threads (no chunks) |
| IterativeParallelism.Minimum | src/ru/ifmo/rain/alekperov/concurrent/IterativeParallelism.java:114-116 | `minimum` has the same error cases and otherwise returns an element not greater than any value |
| IterativeParallelism.MatchChunks | src/ru/ifmo/rain/alekperov/concurrent/IterativeParallelism.java:122-132 | every chunk matching completely is the whole list matching; some chunk having a match is the whole list having one |
| IterativeParallelism.All | src/ru/ifmo/rain/alekperov/concurrent/IterativeParallelism.java:122-124 | `all` is allMatch over the whole list (true when it is empty) for positive threads, ArithmeticException for zero threads, and true for negative threads |
| IterativeParallelism.Any | src/ru/ifmo/rain/alekperov/concurrent/IterativeParallelism.java:130-132 | `any` is anyMatch over the whole list (false when it is empty) for positive threads, ArithmeticException for zero threads, and false for negative threads |
| WebCrawler.EmptyQueueValid | src/ru/ifmo/rain/alekperov/crawler/WebCrawler.java:30-33 | a new queue (nothing waiting, nothing admitted) satisfies the queue invariant and holds no pending task |
| WebCrawler.SubmitValid | src/ru/ifmo/rain/alekperov/crawler/WebCrawler.java:44-58 | `submitTask` keeps the invariant (0 <= submitted <= cap, submitted = running tasks, waiting only at the cap, accepted = dispatched followed by waiting). Below the cap it admits and dispatches it; at the cap it joins the tail and `submitted` stays |
| WebCrawler.NextValid | src/ru/ifmo/rain/alekperov/crawler/WebCrawler.java:35-42 | `executeNextTask` keeps the invariant: a waiting head is dispatched in arrival order with `submitted` unchanged, and an empty queue decrements `submitted` |
| WebCrawler.SubmitPending | src/ru/ifmo/rain/alekperov/crawler/WebCrawler.java:44-58 | a submitted task becomes pending: no task is dropped |
| WebCrawler.NextPending | src/ru/ifmo/rain/alekperov/crawler/WebCrawler.java:35-42 | a completion removes exactly the finished task from the pending ones |
| WebCrawler.IdleQueueIsEmpty | src/ru/ifmo/rain/alekperov/crawler/WebCrawler.java:52-57 | a queue with a positive cap and no running task has nothing waiting, since a task waits only while the cap is reached |
| WebCrawler.HostDownloadQueue.constructor | src/ru/ifmo/rain/alekperov/crawler/WebCrawler.java:30-33 | the constructor gives an empty queue that satisfies the invariant |
| WebCrawler.HostDownloadQueue.SubmitTask | src/ru/ifmo/rain/alekperov/crawler/WebCrawler.java:44-58 | `submitTask` updates the fields in place as the submit transition says and keeps the invariant |
| WebCrawler.HostDownloadQueue.ExecuteNextTask | src/ru/ifmo/rain/alekperov/crawler/WebCrawler.java:35-42 | `executeNextTask` updates the fields in place as the completion transition says and keeps the invariant |
| WebCrawler.Finished | src/ru/ifmo/rain/alekperov/crawler/WebCrawler.java:94-110 | a finished download task takes its url out of flight, into `downloaded` when the download succeeds and into `errors` otherwise, and its queue runs the next task |
| WebCrawler.FinishedValid | src/ru/ifmo/rain/alekperov/crawler/WebCrawler.java:92-111 | finishing a running task keeps the crawl invariant: every queue holds exactly its host's pending jobs, every url has one consistent outcome, and every url in flight has one pending job |
| WebCrawler.FinishedSound | src/ru/ifmo/rain/alekperov/crawler/WebCrawler.java:92-111 | finishing a running task keeps the depth bookkeeping sound: the task's job carries the depth its url was processed at, and a downloaded page gets its extracting task with that depth |
| WebCrawler.WithinMono | src/ru/ifmo/rain/alekperov/crawler/WebCrawler.java:99-100 | allowing more link hops from the seed reaches no fewer urls |
| WebCrawler.WithinTargets | src/ru/ifmo/rain/alekperov/crawler/WebCrawler.java:99-100 | every url some hops from the seed is the seed or a link of some document, a finite set |
| WebCrawler.PlacedLink | src/ru/ifmo/rain/alekperov/crawler/WebCrawler.java:99-100 | a link of a page processed with remaining depth d, processed at d - 1 (not 0), lies one hop further from the seed |
| WebCrawler.ProcessedTargets | src/ru/ifmo/rain/alekperov/crawler/WebCrawler.java:86-100 | every processed url is the seed or a link of some document |
| WebCrawler.SettledLinks | src/ru/ifmo/rain/alekperov/crawler/WebCrawler.java:97-106 | once no extracting task is left, every downloaded url has its depth and the links of every downloaded page not processed at depth 1 are processed |
| WebCrawler.PlacedReach | src/ru/ifmo/rain/alekperov/crawler/WebCrawler.java:122-130 | the urls processed in a crawl to a positive depth lie within depth - 1 hops of the seed, and under a negative depth they are reachable from it |
| WebCrawler.Crawl.constructor | src/ru/ifmo/rain/alekperov/crawler/WebCrawler.java:123-126 | `download` starts from empty collections, which satisfy the crawl invariant |
| WebCrawler.Crawl.GetDownloadQueue | src/ru/ifmo/rain/alekperov/crawler/WebCrawler.java:79-81 | `getDownloadQueue` creates a host's queue empty on first use, keeps an existing queue, and changes nothing else |
| WebCrawler.Crawl.Process | src/ru/ifmo/rain/alekperov/crawler/WebCrawler.java:83-116 | `process` changes nothing at depth 0 or for a url already processed. Otherwise it adds the url to `processed` at this depth and records the page it came from (none for the seed); a malformed url goes to `errors`, and any other url is submitted once to the queue of its host |
| WebCrawler.Crawl.CompleteDownload | src/ru/ifmo/rain/alekperov/crawler/WebCrawler.java:92-111 | the download task records a successful url in `downloaded` and submits the extracting task of its page, or records an IOException in `errors`; either way the url leaves flight, the queue runs its next task, and `processed` and the depths stay |
| WebCrawler.Crawl.ProcessLinks | src/ru/ifmo/rain/alekperov/crawler/WebCrawler.java:99-100 | `process` on every link of a downloaded page, one below the page's depth: only links are added to `processed`, every link is processed when that depth is not 0, each new url gets that depth and the page as its parent, and the depths of earlier urls stay |
| WebCrawler.Crawl.RunExtraction | src/ru/ifmo/rain/alekperov/crawler/WebCrawler.java:97-106 | the extracting task processes only links of its page, all of them unless the page was processed at depth 1, each new one at one less than the page's depth and with the page as its parent; an IOException skips the page; the task is then done |
| WebCrawler.Crawl.RunAnyExtraction | src/ru/ifmo/rain/alekperov/crawler/WebCrawler.java:97-106 | running any submitted extracting task keeps the invariant and the depths, leaves `downloaded` alone, and when it processes nothing it has one task fewer and the same urls in flight |
| WebCrawler.Crawl.RunAnyDownload | src/ru/ifmo/rain/alekperov/crawler/WebCrawler.java:92-111 | running any dispatched download task keeps the invariant, leaves `processed` and the depths alone, and takes one url out of flight |
| WebCrawler.Crawl.RunSomeTask | src/ru/ifmo/rain/alekperov/crawler/WebCrawler.java:92-111 | running any one task, a download task or an extracting task, keeps the invariant, every processed url a link target, and every depth already recorded. Each url processed with remaining depth d ends a walk of exactly maxDepth - d links from the seed (DepthsPlaced). Each processed url other than the seed has a downloaded parent page that links to it and was processed one depth higher (Derived). The task processes a new url, or else takes a url out of flight, or else finishes an extracting task |
| WebCrawler.Crawl.RunWhileBusy | src/ru/ifmo/rain/alekperov/crawler/WebCrawler.java:128 | tasks run, in whatever order they are picked, until no download task runs and no extracting task is left, and this always ends |
| WebCrawler.Crawl.RunUntilIdle | src/ru/ifmo/rain/alekperov/crawler/WebCrawler.java:128 | under a positive perHost the tasks run out with nothing in flight, and nothing changes when nothing was submitted |
| WebCrawler.Crawl.AwaitAll | src/ru/ifmo/rain/alekperov/crawler/WebCrawler.java:128 | the wait for all tasks ends with nothing in flight and no extracting task left; the links of every downloaded page not processed at depth 1 are then processed; every processed url but the seed has a downloaded parent one depth higher; earlier depths stay, and nothing changes when no task was ever submitted |
| WebCrawler.SetToSeq | src/ru/ifmo/rain/alekperov/crawler/WebCrawler.java:129 | `new ArrayList<>(downloaded)` lists every downloaded url exactly once |
| WebCrawler.Download | src/ru/ifmo/rain/alekperov/crawler/WebCrawler.java:122-130 | `download(url, 0)` is empty. Otherwise the url is downloaded or an error; downloaded urls are distinct, downloadable and never errors; an error is MalformedURLException exactly for a url without a host, and a download error only for a url that cannot be downloaded. Every reported url has the remaining depth it was processed at: the url itself the call's depth, which places it at the end of a walk from the seed that many links short of the depth. Every other reported url has a downloaded parent page that links to it, with a depth one higher. The links of a downloaded page not at depth 1 are all reported. Under a positive depth everything reported is within depth - 1 hops; under a negative depth everything reported is reachable from the seed and every link of a downloaded page is reported |
| WebCrawler.HopsWithin | src/ru/ifmo/rain/alekperov/crawler/WebCrawler.java:99-100 | a walk of k links from the seed ends at most k hops from it |
| CrawlOrder.DiamondFacts | src/ru/ifmo/rain/alekperov/crawler/WebCrawler.java:86-100 | the six-page web used below: every url is well formed and its own host, a links to b and c, b and e to d, c to e, and d to f |
| CrawlOrder.SoleJobRuns | src/ru/ifmo/rain/alekperov/crawler/WebCrawler.java:44-58 | with one download per host and every url its own host, a url in flight has exactly its own job running on its host, with the depth it was processed at |
| CrawlOrder.RunPage | src/ru/ifmo/rain/alekperov/crawler/WebCrawler.java:92-106 | the download task of u and then its extracting task: u is downloaded, its links are processed unless u was processed at depth 1, each new one at one below u's depth, and earlier depths stay |
| CrawlOrder.ProcessedPositive | src/ru/ifmo/rain/alekperov/crawler/WebCrawler.java:86 | in a crawl to a positive depth every processed url has a positive remaining depth, as `process` ignores depth 0 |
| CrawlOrder.Visit | src/ru/ifmo/rain/alekperov/crawler/WebCrawler.java:92-106 | running one page when no other task is left: exactly u's links are added to `processed`, unless u was at depth 1, u is downloaded, and the known depths stay |
| CrawlOrder.StartDiamond | src/ru/ifmo/rain/alekperov/crawler/WebCrawler.java:122-127 | `download(a, 4)` on the six-page web, after it has processed the seed: only a is processed, at depth 4, and nothing is downloaded or extracting |
| CrawlOrder.DiamondStarted | src/ru/ifmo/rain/alekperov/crawler/WebCrawler.java:122-127 | the started crawl is the six-page crawl that knows a at depth 4 |
| CrawlOrder.DiamondSteps | src/ru/ifmo/rain/alekperov/crawler/WebCrawler.java:97-106 | the five page steps of the schedule a, c, e, b, d: d is first reached from e, three hops from a, and gets depth 1 |
| CrawlOrder.VisitDiamond | src/ru/ifmo/rain/alekperov/crawler/WebCrawler.java:92-106 | one step of the schedule on the six-page crawl leaves exactly the sets the step describes |
| CrawlOrder.SchedulePages | src/ru/ifmo/rain/alekperov/crawler/WebCrawler.java:86-106 | running the pages in the order a, c, e, b, d processes and downloads a, b, c, d and e, with d at depth 1 |
| CrawlOrder.Settled | src/ru/ifmo/rain/alekperov/crawler/WebCrawler.java:128 | a crawl whose every processed url is downloaded has nothing in flight, no error and no task left |
| CrawlOrder.LosesDeepLinkOn | src/ru/ifmo/rain/alekperov/crawler/WebCrawler.java:86-100 | in that schedule the crawl ends with no task left, having downloaded exactly a, b, c, d and e with no error; f is never processed although it is three hops from a, within the depth - 1 of 3 |
| CrawlOrder.LosesDeepLink | src/ru/ifmo/rain/alekperov/crawler/WebCrawler.java:86-100 | the same on the urls A to F: `download("A", 4)` can end without reporting F, which is within 3 hops |
| CrawlOrder.ChainFacts | src/ru/ifmo/rain/alekperov/crawler/WebCrawler.java:99-100 | the chain web a → b → c on one host: its urls and the links of each |
| CrawlOrder.ChainReported | src/ru/ifmo/rain/alekperov/crawler/WebCrawler.java:86-100 | any result with the guarantees of `download("a", 3)` over the chain holds a, b and c as downloaded urls: b's only parent is a, so b has the depth 2 and c, its link, is reported |
| CrawlOrder.FollowsChain | src/ru/ifmo/rain/alekperov/crawler/WebCrawler.java:122-130 | in every task order, `download("a", 3)` over the chain a → b → c downloads all three urls |
| BreadthFirst.LevelStep | src/ru/ifmo/rain/alekperov/crawler/WebCrawler.java:99-100 | following the links of the urls first reached at the last level, minus those seen, gives exactly the urls first reached one hop further |
| BreadthFirst.WithinStable | src/ru/ifmo/rain/alekperov/crawler/WebCrawler.java:99-100 | once one more hop reaches nothing new, no number of further hops does |
| BreadthFirst.StableReaches | src/ru/ifmo/rain/alekperov/crawler/WebCrawler.java:99-100 | at such a fixed point, the urls within k hops are exactly the urls reachable from the seed |
| BreadthFirst.NothingNew | src/ru/ifmo/rain/alekperov/crawler/WebCrawler.java:99-100 | a level that adds nothing new is a fixed point of the levels |
| BreadthFirst.FetchableLinks | src/ru/ifmo/rain/alekperov/crawler/WebCrawler.java:92-100 | the links the crawl follows from one level are exactly those of its well-formed urls whose pages download |
| BreadthFirst.CrawlLevel | src/ru/ifmo/rain/alekperov/crawler/WebCrawler.java:86-111 | one level: the well-formed urls whose pages download are fetched, every other url fails as MalformedURLException exactly when it has no host and as a download error only when it does not download, and the next level is the new links of the fetched pages |
| BreadthFirst.OutcomeNext | src/ru/ifmo/rain/alekperov/crawler/WebCrawler.java:92-111 | reporting a new level adds its fetched urls to the downloaded ones and its failures to the errors, and keeps every outcome consistent |
| BreadthFirst.LevelsNext | src/ru/ifmo/rain/alekperov/crawler/WebCrawler.java:86-100 | crawling one more level keeps the level invariant (seen = within k hops, reported = within k - 1 hops), and leaves fewer link targets unseen when it finds something new |
| BreadthFirst.LevelsStart | src/ru/ifmo/rain/alekperov/crawler/WebCrawler.java:122-127 | the crawl starts with the seed as its only level and nothing reported |
| BreadthFirst.StepLevel | src/ru/ifmo/rain/alekperov/crawler/WebCrawler.java:86-111 | crawling the next level moves the whole state on by one level: the new reports are exactly that level, and a level that finds something new leaves fewer link targets unseen |
| BreadthFirst.LevelsEnd | src/ru/ifmo/rain/alekperov/crawler/WebCrawler.java:86 | the levels stop after depth of them, or at a level with nothing new: then the urls reported are none for depth 0, those within depth - 1 hops for a positive depth, and those reachable for a negative one |
| BreadthFirst.LevelsDone | src/ru/ifmo/rain/alekperov/crawler/WebCrawler.java:122-130 | when the levels stop, the downloaded and failed urls are exactly the urls within depth - 1 hops over the downloadable pages (reachable ones for a negative depth, none for depth 0), with consistent outcomes |
| BreadthFirst.CrawlFrom | src/ru/ifmo/rain/alekperov/crawler/WebCrawler.java:86-128 | crawling the levels from level k on ends where the levels stop, keeping the level invariant; it always ends, as each level that finds something leaves fewer link targets unseen |
| BreadthFirst.DownloadBreadthFirst | src/ru/ifmo/rain/alekperov/crawler/WebCrawler.java:122-130 | the corrected `download`: under a positive depth it reports exactly the urls within depth - 1 hops of the seed, over the pages of well-formed urls that download; under a negative depth exactly those reachable from it; nothing at depth 0. Downloaded urls are distinct, well formed, downloadable and never errors, and the kind of each error is as in `download` |
| BreadthFirst.ReportsDeepLink | src/ru/ifmo/rain/alekperov/crawler/WebCrawler.java:86-100 | on the six-page web where the schedule above loses F, the corrected crawl from A at depth 4 downloads F |
| StudentDB.NameOrderSpec | src/ru/ifmo/rain/alekperov/student/StudentDB.java:17-19 | `NAME_COMPARATOR` is a lawful comparator that orders by last name, then first name, then id, and ties exactly the students that agree on all three; the earlier version at StudentDB.java:15-17 does the same |
| StudentDB.MappingQueriesSpec | src/ru/ifmo/rain/alekperov/student/StudentDB.java:113-131 | the four mapping queries keep length and order, and a full name is the first name, one space and the last name; the earlier version at StudentDB.java:99-117 does the same |
| StudentDB.FullNameParts | src/ru/ifmo/rain/alekperov/student/StudentDB.java:24-26 | a full name splits back into the first and the last name |
| StudentDB.MapStudentsAppend | src/ru/ifmo/rain/alekperov/student/StudentDB.java:53-62 | mapping a concatenation of lists maps each list |
| StudentDB.DistinctFirstNamesSpec | src/ru/ifmo/rain/alekperov/student/StudentDB.java:133-136 | the distinct first names are strictly ascending and are exactly the first names in the list; the earlier version at StudentDB.java:119-122 does the same |
| StudentDB.SortQueriesSpec | src/ru/ifmo/rain/alekperov/student/StudentDB.java:143-151 | `sortStudentsById` and `sortStudentsByName` return a sorted permutation of the collection, and the students tied under the order keep their order in the collection (the sort is stable); the earlier version at StudentDB.java:129-137 does the same |
| StudentDB.MinStudentFirstNameSpec | src/ru/ifmo/rain/alekperov/student/StudentDB.java:138-141 | `getMinStudentFirstName` is "" on an empty list, and otherwise the first name of a student not greater than any other; the earlier version at StudentDB.java:124-127 does the same |
| StudentDB.FilterMembers | src/ru/ifmo/rain/alekperov/student/StudentDB.java:64-69 | `filterStudents` keeps a student exactly when it occurs in the collection and its field equals the expected value |
| StudentDB.FindStudentsSpec | src/ru/ifmo/rain/alekperov/student/StudentDB.java:153-166 | each find query returns every student whose field equals the argument, as often as it occurs, and no other, sorted by `NAME_COMPARATOR`; the earlier version at StudentDB.java:139-152 does the same |
| StudentDB.NamesMapSpec | src/ru/ifmo/rain/alekperov/student/StudentDB.java:168-172 | the `toMap` with a min-merge maps exactly the students' last names, each to the least first name of a student with that last name |
| StudentDB.NamesMapKeys | src/ru/ifmo/rain/alekperov/student/StudentDB.java:168-172 | the map's keys are exactly the students' last names, and each maps to the first name of a student with that last name |
| StudentDB.NamesMapLeast | src/ru/ifmo/rain/alekperov/student/StudentDB.java:168-172 | the first name a last name maps to is not greater than the first name of any student with that last name |
| StudentDB.FindStudentNamesByGroupSpec | src/ru/ifmo/rain/alekperov/student/StudentDB.java:168-172 | `findStudentNamesByGroup` maps the last name of every student of the group to the least first name among that group's students with that last name, and has no other keys; the earlier version at StudentDB.java:154-158 does the same |
| StudentDB.GroupStreamSpec | src/ru/ifmo/rain/alekperov/student/StudentDB.java:28-33 | the group stream holds one group for each group name of the collection and nothing else |
| StudentDB.GroupStreamSound | src/ru/ifmo/rain/alekperov/student/StudentDB.java:28-33 | every group of the stream is the group of some student's group name |
| StudentDB.GroupStreamComplete | src/ru/ifmo/rain/alekperov/student/StudentDB.java:28-33 | the group of every student's group name is in the stream |
| StudentDB.GroupOfSpec | src/ru/ifmo/rain/alekperov/student/StudentDB.java:28-33 | a group holds only students of its name, strictly ascending under the student order, and an equal one for every student of that name |
| StudentDB.GroupOfClasses | src/ru/ifmo/rain/alekperov/student/StudentDB.java:28-33 | of the students of a name in encounter order, a group keeps exactly those that come first among the students equal to them under the student order |
| StudentDB.SortedGroupsSpec | src/ru/ifmo/rain/alekperov/student/StudentDB.java:35-39 | the sorted groups have strictly ascending names and are exactly the groups of the names in the collection |
| StudentDB.SortedGroupsContents | src/ru/ifmo/rain/alekperov/student/StudentDB.java:35-39 | under a lawful student order, every sorted group holds that group's students strictly ascending, with an equal one for every student of the group, and every group name of the collection has a group |
| StudentDB.GroupQueriesSpec | src/ru/ifmo/rain/alekperov/student/StudentDB.java:87-97 | `getGroupsByName` and `getGroupsById` list one group per group name, sorted by name; each holds its students sorted by name (by id), with students equal under that order collapsed into one; the earlier version at StudentDB.java:73-83 does the same |
| StudentDB.MaxSpec | src/ru/ifmo/rain/alekperov/student/StudentDB.java:41-45 | `Stream.max` is nothing exactly on an empty stream, and otherwise one of its elements not less than any of them |
| StudentDB.LargestOrderMeaning | src/ru/ifmo/rain/alekperov/student/StudentDB.java:47-51 | under the group order, a group is not above another exactly when its measure is smaller, or equal with a name not below |
| StudentDB.MaxGroupNameSpec | src/ru/ifmo/rain/alekperov/student/StudentDB.java:47-51 | `getMaxGroupName` is "" for an empty collection; otherwise it is the name of a group of the collection with the largest measure, and the smallest such name on a tie; the earlier version at StudentDB.java:31-41 does the same |
| StudentDB.LargestGroupSpec | src/ru/ifmo/rain/alekperov/student/StudentDB.java:99-111 | `getLargestGroup` and `getLargestGroupFirstName` are "" on an empty collection; otherwise they name a group with the most students (the most distinct first names), ties going to the smallest name; the earlier version at StudentDB.java:85-97 does the same |
| StudentDB.NameEntriesSpec | src/ru/ifmo/rain/alekperov/student/StudentDB.java:174-180 | the map entries are exactly the full names of the collection, each with the number of distinct groups it occurs in |
| StudentDB.PopularOrderMeaning | src/ru/ifmo/rain/alekperov/student/StudentDB.java:174-180 | under `comparingInt(getValue).thenComparing(getKey)`, an entry is not above another exactly when its count is smaller, or equal with a key not above |
| StudentDB.MostPopularNameSpec | src/ru/ifmo/rain/alekperov/student/StudentDB.java:174-180 | `getMostPopularName` is "" exactly for an empty collection; otherwise it is the full name of a student whose name occurs in the most distinct groups, and the greatest such name on a tie |
| Implementor.JoinEmpty | src/ru/ifmo/rain/alekperov/implementor/Implementor.java:215-217 | with ", " between items, the join is empty only for no items or a single empty item |
| Implementor.JoinAppend | src/ru/ifmo/rain/alekperov/implementor/Implementor.java:215-217 | joining two non-empty lists is joining each and putting one separator between them |
| Implementor.JoinChars | src/ru/ifmo/rain/alekperov/implementor/Implementor.java:215-217 | the join holds a character only if an item or the separator holds it |
| Implementor.CollectParametersSpec | src/ru/ifmo/rain/alekperov/implementor/Implementor.java:228-230 | the later parameter list is parenthesised and holds no '$', and it equals the earlier list (Implementor.java:86-88, the parenthesised join unchanged) whenever no item holds a '$' |
| Implementor.WrappedListsSpec | src/ru/ifmo/rain/alekperov/implementor/Implementor.java:242-273 | for type names, which are never empty, the throws clause and the type parameter list are "" for no items, and otherwise " throws " and the list, or the list in angle brackets; the earlier version at Implementor.java:90-103 does the same |
| Implementor.DefaultValue | src/ru/ifmo/rain/alekperov/implementor/Implementor.java:313-322 | the default value is "false" exactly for boolean, "" exactly for void, "0" exactly for the other primitives, and "null" exactly for reference types; it is ASCII; the earlier version at Implementor.java:109-118 does the same |
| Implementor.ReturnValueSpec | src/ru/ifmo/rain/alekperov/implementor/Implementor.java:477-481 | what follows "return" is empty for void and otherwise a space and the default value; escaping leaves it unchanged |
| Implementor.MethodBodySpec | src/ru/ifmo/rain/alekperov/implementor/Implementor.java:477-481 | a generated method body is "return;" for void and "return <default>;" otherwise, indented twice; both versions write the same body |
| Implementor.MethodBodyV1Spec | src/ru/ifmo/rain/alekperov/Implementor.java:184-188 | the earlier method body has the same shape |
| Implementor.ConstructorBodySpec | src/ru/ifmo/rain/alekperov/implementor/Implementor.java:462-466 | the two versions write the same `super(...)` call when the parameter names are ASCII without '$' |
| Implementor.ExecutableTypeAndName | src/ru/ifmo/rain/alekperov/implementor/Implementor.java:334-340 | a constructor is written under the implementation name; a method is written as its return type name with every '$' turned into '.' and every other character kept, then one space and its name |
| Implementor.SurrogatesRoundTrip | src/ru/ifmo/rain/alekperov/implementor/Implementor.java:352 | a character beyond 16 bits becomes two UTF-16 units that denote it |
| Implementor.Hex4RoundTrip | src/ru/ifmo/rain/alekperov/implementor/Implementor.java:354 | the four upper-case hexadecimal digits of a unit are ASCII and read back as the unit |
| Implementor.EscapeUnicode | src/ru/ifmo/rain/alekperov/implementor/Implementor.java:350-360 | the loop over the char array builds exactly the escaped text of the string |
| Implementor.EscapeUnitsAppend | src/ru/ifmo/rain/alekperov/implementor/Implementor.java:350-360 | escaping works unit by unit: escaping a concatenation concatenates the escapes |
| Implementor.EscapedAscii | src/ru/ifmo/rain/alekperov/implementor/Implementor.java:350-360 | the escaped text is all ASCII |
| Implementor.EscapedAsciiIdentity | src/ru/ifmo/rain/alekperov/implementor/Implementor.java:350-360 | an ASCII string is written unchanged |
| Implementor.EscapeUnitRoundTrip | src/ru/ifmo/rain/alekperov/implementor/Implementor.java:353-354 | a unit of 128 or more is written as \u and four digits that read back as the unit |
| Implementor.ImplFilePathSpec | src/ru/ifmo/rain/alekperov/implementor/Implementor.java:283-301 | the file is `<simple name>Impl<extension>`, under the root, in one directory per package name component; with no package it lies directly under the root |
| Implementor.JarEntryMatchesClassFile | src/ru/ifmo/rain/alekperov/implementor/Implementor.java:623-624 | for a class in a package, the JAR entry is the relative path that the class file is compiled to, with '/' as the separator |
| Implementor.ImplementChecksSpec | src/ru/ifmo/rain/alekperov/implementor/Implementor.java:573-577 | the later check rejects everything the earlier one rejects, and in addition exactly the types whose declared constructors are all private; a type it accepts has a constructor written whenever it declares any; the earlier check (Implementor.java:232-234) looks only at primitive, array, final and `Enum` types |
| Implementor.WrittenConstructors | src/ru/ifmo/rain/alekperov/implementor/Implementor.java:530-536 | exactly the declared constructors that are not private are written |
| Implementor.WrappersEqualSpec | src/ru/ifmo/rain/alekperov/implementor/Implementor.java:66-74 | two wrappers are equal exactly when their methods share name, return type and parameter types; the declaring class and the modifiers do not matter; the earlier version at Implementor.java:30-38 does the same |
| Implementor.CollectedMore | src/ru/ifmo/rain/alekperov/implementor/Implementor.java:369-372 | adding the abstract methods of more methods extends what the set was collected from, and a wrapper already present is never replaced |
| Implementor.CollectedFromSpec | src/ru/ifmo/rain/alekperov/implementor/Implementor.java:369-372 | a signature is in the collected set exactly when some method searched is abstract with it, and its wrapper is such a method |
| Implementor.GetAbstractMethods | src/ru/ifmo/rain/alekperov/implementor/Implementor.java:382-389 | the set has a wrapper for every signature of an abstract method among the public methods and the declared methods up the superclass chain, and no other; each wrapper is the first abstract method with its signature in that order |
| Implementor.ScanDeclaredSpec | src/ru/ifmo/rain/alekperov/Implementor.java:129-139 | the declared-methods loop stores the abstract signatures that are not implemented, keeps what was stored, and collects the signatures of the other methods |
| Implementor.RemoveAllForgetsImplementation | src/ru/ifmo/rain/alekperov/Implementor.java:148 | as written, a class that implements f() while its superclass also implements f() and its interface declares f() abstract gets f() collected; the corrected recursion does not collect it |
| Implementor.VisitSpec | src/ru/ifmo/rain/alekperov/Implementor.java:128-149 | the corrected recursion adds exactly the signatures still pending below the class, gives `implemented` back unchanged, and never replaces a stored wrapper |
| Implementor.ImplementedNotPending | src/ru/ifmo/rain/alekperov/Implementor.java:128-149 | a signature implemented further down the hierarchy is never pending |
| Implementor.AbstractMethodsV1Spec | src/ru/ifmo/rain/alekperov/Implementor.java:151-155 | with the corrected recursion and starting from empty sets, a method that the class itself implements, and does not also declare abstract, is never collected |
| Implementor.MethodCollector.ScanMethods | src/ru/ifmo/rain/alekperov/Implementor.java:129-139 | the loop updates `storage` in place as the declared-methods scan says and returns the signatures implemented here |
| Implementor.MethodCollector.CollectV1 | src/ru/ifmo/rain/alekperov/Implementor.java:128-149 | the in-place recursion as written leaves the two sets as the as-written function says |
| Implementor.MethodCollector.Collect | src/ru/ifmo/rain/alekperov/Implementor.java:128-149 | the corrected in-place recursion leaves the two sets as the corrected function says |
| Implementor.GetAbstractMethodsV1 | src/ru/ifmo/rain/alekperov/Implementor.java:151-155 | with the corrected recursion, the collected set has a wrapper exactly for every pending signature of the class, each an abstract method with that signature |
| Implementor.GetAbstractMethodsV1AsWritten | src/ru/ifmo/rain/alekperov/Implementor.java:151-155 | the earlier `getAbstractMethods` as written runs the in-place `removeAll` recursion from empty sets and returns what it stored: the as-written recursion, which RemoveAllForgetsImplementation shows collecting a method the class implements |

## Left out

- Threads, executors, the `Phaser` and `shutdownNow` (IterativeParallelism, WebCrawler): these are concurrency. Tasks run one at a time: in IterativeParallelism in chunk order, and in WebCrawler as a download task or an extracting task, whichever is picked, with the properties proved for every order. An extracting task runs as one step, so interleaving its `process` calls with other tasks is not modelled.
- Delegation to a `ParallelMapper`, and the InterruptedException suppression chain of `run`: these are concurrency as well.
- `URLUtils.getHost` and `Downloader`/`Document` are foreign code. They become a map from well-formed urls to hosts and a map from downloadable urls to documents. A url outside the first map is malformed, and one outside the second fails to download.
- WebCrawler.Download: it requires perHost > 0 unless the depth is 0 or the url is malformed. In that one remaining case the source never dispatches the first download, so the `Phaser` wait never ends and there is no result to describe.
- WebCrawler.Crawl.AwaitAll: it requires perHost > 0 unless nothing is in flight and no extracting task is left, for the same reason.
- WebCrawler.Download: does not promise that every url within depth - 1 hops of the seed is reported, because the source does not keep that promise (see "## Findings"). A url is processed once, with the remaining depth of the first path that reaches it. When a longer path reaches it first, its links get less depth, so how far the crawl goes depends on task order. The contract states what holds in every order, and what one order does is exhibited in `CrawlOrder`.
- BreadthFirst is the corrected definition and not code from the source. It runs each level as one step, so its queues, executors and per-host limit are not modelled; only the outcome of each level is.
- WebCrawler `close()`, `main`, and the constructor's thread counts: these are thread pools and command-line glue.
- The crawl's host queues are held by their state, a value, whose transitions the `HostDownloadQueue` class performs in place. Queue identity inside the crawl is therefore not modelled.
- `taskQueues` is a field of the crawler, so in the source the host queues and their `submitted` counts outlive one `download` call and are shared by concurrent calls. The model gives each call fresh empty queues; sharing them across calls is not modelled.
- WebCrawler.Download: the depth is an unbounded integer. The Java `int` wrap of `depth - 1` at `Integer.MIN_VALUE`, which would turn the remaining depth positive, is not modelled.
- IterativeParallelism.Join: values are taken to be their own strings, because `toString` of arbitrary objects is not modelled.
- `Student`, `Group` and the students' natural order come from a library that is not part of this model. The natural order is a parameter.
- StudentDB: the grouping runs in order of first appearance, which is the deterministic part, since `HashMap` order cannot be seen here. The result is sorted by name anyway.
- Reflection in Implementor becomes data: types, methods, constructors and the class hierarchy (a tree of class nodes, and the superclass chain as a sequence).
- Implementor output other than what is listed above (`writeHeader`, `writeExecutable`, the class footer, `Modifier.toString`), file and JAR writing, and compilation through `javac`: this is I/O, and library formatting that is not part of this model.
- `MethodWrapper.hashCode`: it depends on library hash codes; only `equals` matters for the sets.
- Paths are text. `File.separatorChar` and the line separator are parameters.
- Implementor.ImplFilePathSpec: it requires a separator other than '.', as `File.separatorChar` always is.
- Implementor.JarEntryMatchesClassFile: it requires a simple name without '.'. So it does not cover nested classes, for which the JAR entry comes from `getName()` (with '$') and the source file from `getSimpleName()`.
- Java `char` is modelled as UTF-16 code units computed from Dafny characters, and `String.compareTo` compares those units.
- ArraySet: the `ClassCastException` of a natural order on non-`Comparable` elements, and the aliasing of `subList` views, are not modelled. Both Java comparator laws are preconditions (`Valid`), as `TreeSet` and `Collections.binarySearch` require them.
- ArraySet: `iterator`, `descendingIterator`, `size` and `comparator()` return the storage or the fields unchanged, and they have no model of their own.
- FNV.Get32BitHash: it requires every read to fit the 1024-byte buffer, which `InputStream.read(buffer)` guarantees. IOException is not modelled.

## Findings

| source | as written | input that shows it | evidently intended | confidence | as-written member | corrected member |
|---|---|---|---|---|---|---|
| src/ru/ifmo/rain/alekperov/ArraySet.java:128-131 | `descendingSet` passes a null comparator through unchanged while reversing the storage, so binary search runs in ascending order over descending storage | the set {1, 2} in natural order: its descending set stores [2, 1], and `contains(1)` is false | reverse the natural order too, as the later version's `Collections.reverseOrder(comparator)` does | not executed | ArraySet.DescendingSetV1LosesElements | ArraySet.DescendingSetSpec |
| src/ru/ifmo/rain/alekperov/Implementor.java:148 | `implemented.removeAll(implementedHere)` also removes signatures that a subclass had already put into `implemented`, so later siblings no longer see them as implemented | class C implements f(), extends B, which also implements f(), and implements interface I, which declares f() abstract: f() is collected for C | restore `implemented` to what the call received, removing only the signatures this call added | not executed | Implementor.RemoveAllForgetsImplementation | Implementor.VisitSpec |
| src/ru/ifmo/rain/alekperov/crawler/WebCrawler.java:86-100 | `process` adds a url to `processed` the first time any task reaches it and keeps that task's remaining depth, so a url first reached along a longer path gets less depth and its links are not followed as far as a shorter path allows | `download("A", 4)` on A→[B, C], B→[D], C→[E], E→[D], D→[F], every url its own host, one download per host, pages run in the order A, C, E, B, D: D gets depth 1 and F, three hops from A, is never reported | every url within depth - 1 hops of the seed is reported, as a level-by-level crawl does | not executed | CrawlOrder.LosesDeepLink | BreadthFirst.DownloadBreadthFirst |
