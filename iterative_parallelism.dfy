/** IterativeParallelism: list operations computed by splitting the list into contiguous chunks,
    applying a task to every chunk and merging the per-chunk results. The worker threads only
    fill a results list by position, so the model runs these tasks one after the other. */
module IterativeParallelism {
  import opened Wrappers
  import opened Orders
  import opened Seqs

  /** The exceptions the operations throw. */
  datatype Exception = Arithmetic | NoSuchElement

  function Min(a: int, b: int): int { if a < b then a else b }

  // ---------------------------------------------------------------------------------------------
  // Splitting

  /** Where chunk k starts when every chunk has q elements and the first m one more: the lengths
      of the chunks before it, added up. */
  function ChunkStart(q: nat, m: nat, k: nat): nat {
    if k == 0 then 0 else ChunkStart(q, m, k - 1) + q + (if k - 1 < m then 1 else 0)
  }

  /** The start of chunk k in closed form. */
  lemma {:induction false} ChunkStartClosed(q: nat, m: nat, k: nat)
    ensures ChunkStart(q, m, k) == k * q + Min(k, m)
  {
    if k > 0 {
      ChunkStartClosed(q, m, k - 1);
    }
  }

  /** With q = size / threads and m = size % threads, the chunks before min(size, threads) end
      within the list, and the last one ends at its end. */
  lemma ChunkStartBound(size: nat, threads: nat, k: nat)
    requires threads > 0 && k <= Min(size, threads)
    ensures ChunkStart(size / threads, size % threads, k) <= size
    ensures k == Min(size, threads) ==> ChunkStart(size / threads, size % threads, k) == size
  {
    DivRem(size, threads);
    ChunkStartBoundOf(size / threads, size % threads, size, threads, k);
  }

  /** Euclidean division of the list size by the number of threads: its one nonlinear fact,
      proved once for the lemmas that work with the quotient and remainder as plain numbers. */
  lemma DivRem(size: nat, threads: nat)
    requires threads > 0
    ensures size / threads >= 0 && 0 <= size % threads < threads
    ensures size == threads * (size / threads) + size % threads
  {
  }

  lemma ChunkStartBoundOf(q: nat, m: nat, size: nat, threads: nat, k: nat)
    requires threads > 0 && size == threads * q + m && m < threads && k <= Min(size, threads)
    ensures ChunkStart(q, m, k) <= size
    ensures k == Min(size, threads) ==> ChunkStart(q, m, k) == size
  {
    ChunkStartClosed(q, m, k);
    MulMonotone(k, threads, q);
    if threads > size && q > 0 {
      MulMonotone(1, q, threads);
    }
  }

  /** A product grows with its first factor: an instance the solver's nonlinear arithmetic needs
      to be handed on its own. */
  lemma MulMonotone(a: nat, b: nat, q: nat)
    requires a <= b
    ensures a * q <= b * q
  {
  }

  /** Chunk k of split(threads, values): values[l..r] for the k-th pair of bounds the loop computes. */
  function ChunkAt<T>(values: seq<T>, threads: nat, k: nat): seq<T>
    requires 0 < threads && k < Min(|values|, threads)
  {
    DivRem(|values|, threads);
    ChunkStartBound(|values|, threads, k + 1);
    values[ChunkStart(|values| / threads, |values| % threads, k)..ChunkStart(|values| / threads, |values| % threads, k + 1)]
  }

  /** What split(threads, values) returns: ArithmeticException for zero threads (the division),
      no chunks for negative threads, and otherwise the chunks 0 .. min(size, threads) - 1. */
  function Chunks<T>(threads: int, values: seq<T>): Result<seq<seq<T>>, Exception> {
    if threads == 0 then Failure(Arithmetic)
    else if threads < 0 then Success([])
    else
      var n := Min(|values|, threads);
      Success(seq(n, k requires 0 <= k < n => ChunkAt(values, threads, k)))
  }

  /** One step of the loop of split: from the start of chunk k, the next bound is its end. */
  lemma ChunkStep<T>(values: seq<T>, threads: nat, k: nat, l: int, end: int)
    requires 0 < threads && k < Min(|values|, threads)
    requires l == ChunkStart(|values| / threads, |values| % threads, k)
    requires end == l + |values| / threads + (if |values| % threads - k > 0 then 1 else 0)
    ensures end == ChunkStart(|values| / threads, |values| % threads, k + 1)
    ensures 0 <= l <= end <= |values| && values[l..end] == ChunkAt(values, threads, k)
  {
    ChunkStartBound(|values|, threads, k + 1);
  }

  /** split: the loop adds one chunk per step, moving r past chunkSize elements and one more
      while `left` is positive. */
  method Split<T>(threads: int, values: seq<T>) returns (r: Result<seq<seq<T>>, Exception>)
    ensures r == Chunks(threads, values)
  {
    var chunksCount := Min(|values|, threads);
    if threads == 0 {
      return Failure(Arithmetic);
    }
    if threads < 0 {
      // min(size, threads) is negative: the loop does not run and no chunk is returned.
      return Success([]);
    }
    var chunkSize := |values| / threads;
    var left := |values| % threads;
    var chunks: seq<seq<T>> := [];
    var i, end := 0, 0;
    while i < chunksCount
      invariant 0 <= i <= chunksCount
      invariant |chunks| == i
      invariant left == |values| % threads - i
      invariant end == ChunkStart(chunkSize, |values| % threads, i)
      invariant forall k :: 0 <= k < i ==> chunks[k] == ChunkAt(values, threads, k)
    {
      var l := end;
      end := l + chunkSize + (if left > 0 then 1 else 0);
      ChunkStep(values, threads, i, l, end);
      left := left - 1;
      chunks := chunks + [values[l..end]];
      i := i + 1;
    }
    assert chunks == seq(chunksCount, k requires 0 <= k < chunksCount => ChunkAt(values, threads, k));
    return Success(chunks);
  }

  /** split yields min(size, threads) chunks whose concatenation is the list. */
  lemma ChunksCover<T>(threads: int, values: seq<T>)
    requires threads > 0
    ensures |Chunks(threads, values).value| == Min(|values|, threads)
    ensures Flatten(Chunks(threads, values).value) == values
  {
    var cs := Chunks(threads, values).value;
    var bounds := seq(|cs| + 1, k requires 0 <= k <= |cs| => ChunkStart(|values| / threads, |values| % threads, k));
    forall k | 0 <= k < |bounds| ensures 0 <= bounds[k] <= |values| {
      ChunkStartBound(|values|, threads, k);
    }
    forall k | 0 <= k < |cs| ensures bounds[k] <= bounds[k + 1] && cs[k] == values[bounds[k]..bounds[k + 1]] {
      ChunkStartBound(|values|, threads, k + 1);
    }
    ChunkStartBound(|values|, threads, |cs|);
    FlattenSlices(values, cs, bounds);
    assert values[..bounds[|cs|]] == values;
  }

  /** Chunk k has size / threads elements, plus one for k < size % threads: so no chunk is empty
      and two chunk lengths differ by at most one. */
  lemma ChunkSizes<T>(threads: int, values: seq<T>)
    requires threads > 0
    ensures var cs := Chunks(threads, values).value;
      && (forall k :: 0 <= k < |cs| ==>
            |cs[k]| == |values| / threads + (if k < |values| % threads then 1 else 0))
      && (forall k :: 0 <= k < |cs| ==> |cs[k]| > 0)
      && (forall j, k :: 0 <= j < |cs| && 0 <= k < |cs| ==> -1 <= |cs[j]| - |cs[k]| <= 1)
  {
    var cs := Chunks(threads, values).value;
    forall k | 0 <= k < |cs|
      ensures |cs[k]| == |values| / threads + (if k < |values| % threads then 1 else 0) > 0
    {
      ChunkLength(values, threads, k);
    }
  }

  /** The length of one chunk. */
  lemma ChunkLength<T>(values: seq<T>, threads: nat, k: nat)
    requires 0 < threads && k < Min(|values|, threads)
    ensures |ChunkAt(values, threads, k)| == |values| / threads + (if k < |values| % threads then 1 else 0) > 0
  {
    DivRem(|values|, threads);
    ChunkStartBound(|values|, threads, k + 1);
    ChunkNotEmpty(|values| / threads, |values| % threads, |values|, threads, k);
  }

  /** A chunk before min(size, threads) is not empty: with q = 0 there are only m = size chunks. */
  lemma ChunkNotEmpty(q: nat, m: nat, size: nat, threads: nat, k: nat)
    requires threads > 0 && size == threads * q + m && m < threads && k < Min(size, threads)
    ensures q + (if k < m then 1 else 0) > 0
  {
    if q == 0 {
      assert size == m;
    }
  }

  // ---------------------------------------------------------------------------------------------
  // run

  /** The per-chunk results, in chunk order. */
  function MapTask<T, R>(task: seq<T> --> R, chunks: seq<seq<T>>): (r: seq<R>)
    requires forall k :: 0 <= k < |chunks| ==> task.requires(chunks[k])
    ensures |r| == |chunks|
    ensures forall k :: 0 <= k < |chunks| ==> r[k] == task(chunks[k])
  {
    seq(|chunks|, k requires 0 <= k < |chunks| => task(chunks[k]))
  }

  /** What run(threads, values, task, merger) computes: the merger applied to the results of the
      task on every chunk. A task may need a non-empty chunk, which split guarantees. */
  function RunSpec<T(!new), R>(threads: int, values: seq<T>, task: seq<T> --> R, merger: seq<R> -> Result<R, Exception>): Result<R, Exception>
    requires forall c: seq<T> :: c != [] ==> task.requires(c)
  {
    match Chunks(threads, values)
    case Failure(e) => Failure(e)
    case Success(chunks) =>
      if threads > 0 then
        ChunkSizes(threads, values);
        merger(MapTask(task, chunks))
      else
        merger([])
  }

  /** run: the results list starts as nulls and position i receives the result of task on chunk i;
      the merger then sees the whole list. */
  method Run<T(!new), R>(threads: int, values: seq<T>, task: seq<T> --> R, merger: seq<R> -> Result<R, Exception>)
    returns (r: Result<R, Exception>)
    requires forall c: seq<T> :: c != [] ==> task.requires(c)
    ensures r == RunSpec(threads, values, task, merger)
  {
    var split := Split(threads, values);
    if split.Failure? {
      return Failure(split.error);
    }
    var chunks := split.value;
    if threads > 0 {
      ChunkSizes(threads, values);
    }
    var results := new Option<R>[|chunks|](_ => None);
    for pos := 0 to |chunks|
      invariant forall k :: 0 <= k < pos ==> results[k] == Some(task(chunks[k]))
    {
      results[pos] := Some(task(chunks[pos]));
    }
    var collected: seq<R> := [];
    for k := 0 to |chunks|
      invariant collected == MapTask(task, chunks[..k])
    {
      collected := collected + [results[k].value];
    }
    assert chunks[..|chunks|] == chunks;
    r := merger(collected);
  }

  // ---------------------------------------------------------------------------------------------
  // The operations

  function Filter<T>(p: T -> bool, s: seq<T>): (r: seq<T>)
    decreases |s|
  {
    if s == [] then [] else Filter(p, s[..|s| - 1]) + (if p(s[|s| - 1]) then [s[|s| - 1]] else [])
  }

  function Map<T, U>(f: T -> U, s: seq<T>): (r: seq<U>)
    ensures |r| == |s| && forall i :: 0 <= i < |s| ==> r[i] == f(s[i])
  {
    seq(|s|, i requires 0 <= i < |s| => f(s[i]))
  }

  lemma {:induction false} FilterAppend<T>(p: T -> bool, a: seq<T>, b: seq<T>)
    ensures Filter(p, a + b) == Filter(p, a) + Filter(p, b)
    decreases |b|
  {
    if b == [] {
      assert a + b == a;
    } else {
      var init := b[..|b| - 1];
      assert a + b == (a + init) + [b[|b| - 1]];
      assert (a + b)[..|a + b| - 1] == a + init;
      FilterAppend(p, a, init);
    }
  }

  /** Task and merger of join: each value's string is the value itself here. */
  function JoinTask(c: seq<string>): string { Flatten(c) }
  function JoinMerger(rs: seq<string>): Result<string, Exception> { Success(Flatten(rs)) }

  /** Tasks of filter and map; both merge by concatenating the per-chunk lists. */
  function FilterTask<T>(p: T -> bool): seq<T> -> seq<T> { c => Filter(p, c) }
  function MapTaskOf<T, U>(f: T -> U): seq<T> -> seq<U> { c => Map(f, c) }
  function ListMerger<T>(rs: seq<seq<T>>): Result<seq<T>, Exception> { Success(Flatten(rs)) }

  /** With positive threads run hands the merger the result of task on every (non-empty) chunk. */
  lemma RunOnChunks<T(!new), R>(threads: int, values: seq<T>, task: seq<T> --> R, merger: seq<R> -> Result<R, Exception>)
    requires threads > 0
    requires forall c: seq<T> :: c != [] ==> task.requires(c)
    ensures forall k :: 0 <= k < |Chunks(threads, values).value| ==> task.requires(Chunks(threads, values).value[k])
    ensures RunSpec(threads, values, task, merger) == merger(MapTask(task, Chunks(threads, values).value))
  {
    ChunkSizes(threads, values);
  }

  /** Applying a total task through MapTask is Map. */
  lemma MapTaskTotal<T, R>(task: seq<T> -> R, chunks: seq<seq<T>>)
    ensures MapTask(task, chunks) == Map(task, chunks)
  {
  }

  /** Filtering every chunk and concatenating is filtering the concatenation. */
  lemma {:induction false} FilterChunks<T>(p: T -> bool, chunks: seq<seq<T>>)
    ensures Flatten(Map(FilterTask(p), chunks)) == Filter(p, Flatten(chunks))
    decreases |chunks|
  {
    if chunks != [] {
      var init := chunks[..|chunks| - 1];
      var f := FilterTask(p);
      assert Map(f, chunks) == Map(f, init) + [Filter(p, chunks[|chunks| - 1])];
      FlattenSnoc(Map(f, init), Filter(p, chunks[|chunks| - 1]));
      FilterAppend(p, Flatten(init), chunks[|chunks| - 1]);
      FilterChunks(p, init);
    }
  }

  /** Mapping every chunk and concatenating is mapping the concatenation. */
  lemma {:induction false} MapChunks<T, U>(f: T -> U, chunks: seq<seq<T>>)
    ensures Flatten(Map(MapTaskOf(f), chunks)) == Map(f, Flatten(chunks))
    decreases |chunks|
  {
    if chunks != [] {
      var init := chunks[..|chunks| - 1];
      var g := MapTaskOf(f);
      assert Map(g, chunks) == Map(g, init) + [Map(f, chunks[|chunks| - 1])];
      FlattenSnoc(Map(g, init), Map(f, chunks[|chunks| - 1]));
      MapChunks(f, init);
      assert Map(f, Flatten(init) + chunks[|chunks| - 1]) == Map(f, Flatten(init)) + Map(f, chunks[|chunks| - 1]);
    }
  }

  /** Joining every chunk's strings and joining the results is joining the whole list. */
  lemma {:induction false} JoinChunks(chunks: seq<seq<string>>)
    ensures Flatten(Map(JoinTask, chunks)) == Flatten(Flatten(chunks))
    decreases |chunks|
  {
    if chunks != [] {
      var init := chunks[..|chunks| - 1];
      var last := chunks[|chunks| - 1];
      assert Map(JoinTask, chunks) == Map(JoinTask, init) + [Flatten(last)];
      FlattenSnoc(Map(JoinTask, init), Flatten(last));
      JoinChunks(init);
      FlattenAppend(Flatten(init), last);
    }
  }

  /** join(threads, values): every value's string (the values here are those strings), joined. */
  method Join(threads: int, values: seq<string>) returns (r: Result<string, Exception>)
    ensures threads == 0 ==> r == Failure(Arithmetic)
    ensures threads < 0 ==> r == Success("")
    ensures threads > 0 ==> r == Success(Flatten(values))
  {
    r := Run(threads, values, JoinTask, JoinMerger);
    if threads > 0 {
      var cs := Chunks(threads, values).value;
      RunOnChunks(threads, values, JoinTask, JoinMerger);
      MapTaskTotal(JoinTask, cs);
      ChunksCover(threads, values);
      JoinChunks(cs);
    }
  }

  /** filter(threads, values, predicate): the values satisfying it, in order. */
  method FilterValues<T(!new)>(threads: int, values: seq<T>, pred: T -> bool) returns (r: Result<seq<T>, Exception>)
    ensures threads == 0 ==> r == Failure(Arithmetic)
    ensures threads < 0 ==> r == Success([])
    ensures threads > 0 ==> r == Success(Filter(pred, values))
  {
    r := Run(threads, values, FilterTask(pred), ListMerger);
    if threads > 0 {
      var cs := Chunks(threads, values).value;
      RunOnChunks(threads, values, FilterTask(pred), ListMerger);
      MapTaskTotal(FilterTask(pred), cs);
      ChunksCover(threads, values);
      FilterChunks(pred, cs);
    }
  }

  /** map(threads, values, f): f applied to every value, in order. */
  method MapValues<T(!new), U>(threads: int, values: seq<T>, f: T -> U) returns (r: Result<seq<U>, Exception>)
    ensures threads == 0 ==> r == Failure(Arithmetic)
    ensures threads < 0 ==> r == Success([])
    ensures threads > 0 ==> r == Success(Map(f, values))
  {
    r := Run(threads, values, MapTaskOf(f), ListMerger);
    if threads > 0 {
      var cs := Chunks(threads, values).value;
      RunOnChunks(threads, values, MapTaskOf(f), ListMerger);
      MapTaskTotal(MapTaskOf(f), cs);
      ChunksCover(threads, values);
      MapChunks(f, cs);
    }
  }

  /** Stream.max(comparator) of a non-empty stream: a left fold keeping the earlier element unless
      the later one is greater (BinaryOperator.maxBy). */
  function MaxOf<T>(cmp: (T, T) -> int, s: seq<T>): T
    requires s != []
    decreases |s|
  {
    if |s| == 1 then s[0]
    else
      var m := MaxOf(cmp, s[..|s| - 1]);
      if cmp(m, s[|s| - 1]) >= 0 then m else s[|s| - 1]
  }

  /** The fold yields an element of the stream that is not less than any element. */
  lemma {:induction false} MaxOfSpec<T(!new)>(cmp: (T, T) -> int, s: seq<T>)
    requires TotalPreorder(cmp) && s != []
    ensures MaxOf(cmp, s) in s
    ensures forall x :: x in s ==> cmp(x, MaxOf(cmp, s)) <= 0
    decreases |s|
  {
    if |s| == 1 {
      Flip(cmp, s[0], s[0]);
    } else {
      var init, last := s[..|s| - 1], s[|s| - 1];
      MaxOfSpec(cmp, init);
      var m := MaxOf(cmp, init);
      var top := MaxOf(cmp, s);
      assert top == if cmp(m, last) >= 0 then m else last;
      var j :| 0 <= j < |init| && init[j] == m;
      assert s[j] == m;
      forall x | x in s ensures cmp(x, top) <= 0 {
        var i :| 0 <= i < |s| && s[i] == x;
        if i < |init| {
          assert init[i] == x;
          if cmp(m, last) < 0 {
            Chain(cmp, x, m, last);
          }
        } else if cmp(m, last) >= 0 {
          Flip(cmp, m, last);
        } else {
          Flip(cmp, last, last);
        }
      }
    }
  }

  /** maximum(threads, values, comparator): NoSuchElementException for an empty list; otherwise the
      maximum of the chunk maxima. No chunk is empty, so no per-chunk orElseThrow fires; with
      negative threads there are no chunks and the merger's orElseThrow does. */
  method Maximum<T(!new)>(threads: int, values: seq<T>, cmp: (T, T) -> int) returns (r: Result<T, Exception>)
    requires TotalPreorder(cmp)
    ensures values == [] ==> r == Failure(NoSuchElement)
    ensures values != [] && threads == 0 ==> r == Failure(Arithmetic)
    ensures values != [] && threads < 0 ==> r == Failure(NoSuchElement)
    ensures values != [] && threads > 0 ==>
      r.Success? && r.value in values && forall x :: x in values ==> cmp(x, r.value) <= 0
  {
    if values == [] {
      return Failure(NoSuchElement);
    }
    var task := (c: seq<T>) requires c != [] => MaxOf(cmp, c);
    var merger := (rs: seq<T>) => if rs == [] then Failure(NoSuchElement) else Success(MaxOf(cmp, rs));
    r := Run(threads, values, task, merger);
    if threads > 0 {
      ChunksCover(threads, values);
      ChunkSizes(threads, values);
      var cs := Chunks(threads, values).value;
      var maxima := MapTask(task, cs);
      MaxOfSpec(cmp, maxima);
      var m := MaxOf(cmp, maxima);
      ghost var j :| 0 <= j < |maxima| && maxima[j] == m;
      MaxOfSpec(cmp, cs[j]);
      FlattenMember(cs, m);
      forall x | x in values ensures cmp(x, m) <= 0 {
        FlattenMember(cs, x);
        var k :| 0 <= k < |cs| && x in cs[k];
        MaxOfSpec(cmp, cs[k]);
        Chain(cmp, x, maxima[k], m);
      }
    }
  }

  /** minimum(threads, values, comparator): maximum under the reversed comparator, hence an element
      not greater than any other. */
  method Minimum<T(!new)>(threads: int, values: seq<T>, cmp: (T, T) -> int) returns (r: Result<T, Exception>)
    requires TotalPreorder(cmp)
    ensures values == [] ==> r == Failure(NoSuchElement)
    ensures values != [] && threads == 0 ==> r == Failure(Arithmetic)
    ensures values != [] && threads < 0 ==> r == Failure(NoSuchElement)
    ensures values != [] && threads > 0 ==>
      r.Success? && r.value in values && forall x :: x in values ==> cmp(r.value, x) <= 0
  {
    ReversePreorder(cmp);
    r := Maximum(threads, values, Reverse(cmp));
  }

  /** Stream.allMatch: every element satisfies the predicate; true for an empty stream. */
  predicate AllMatch<T>(p: T -> bool, s: seq<T>) {
    forall i :: 0 <= i < |s| ==> p(s[i])
  }

  /** Stream.anyMatch: some element satisfies the predicate; false for an empty stream. */
  predicate AnyMatch<T>(p: T -> bool, s: seq<T>) {
    exists i :: 0 <= i < |s| && p(s[i])
  }

  lemma MatchAppend<T>(p: T -> bool, a: seq<T>, b: seq<T>)
    ensures AllMatch(p, a + b) == (AllMatch(p, a) && AllMatch(p, b))
    ensures AnyMatch(p, a + b) == (AnyMatch(p, a) || AnyMatch(p, b))
  {
    assert forall i :: 0 <= i < |b| ==> (a + b)[|a| + i] == b[i];
    assert forall i :: 0 <= i < |a| ==> (a + b)[i] == a[i];
  }

  /** Every chunk matching completely is the whole list matching; some chunk having a match is
      the whole list having one. */
  lemma {:induction false} MatchChunks<T>(p: T -> bool, chunks: seq<seq<T>>)
    ensures AllMatch(b => b, Map(c => AllMatch(p, c), chunks)) == AllMatch(p, Flatten(chunks))
    ensures AnyMatch(b => b, Map(c => AnyMatch(p, c), chunks)) == AnyMatch(p, Flatten(chunks))
    decreases |chunks|
  {
    if chunks != [] {
      var init, last := chunks[..|chunks| - 1], chunks[|chunks| - 1];
      var all, any := c => AllMatch(p, c), c => AnyMatch(p, c);
      assert Map(all, chunks) == Map(all, init) + [AllMatch(p, last)];
      assert Map(any, chunks) == Map(any, init) + [AnyMatch(p, last)];
      MatchAppend(b => b, Map(all, init), [AllMatch(p, last)]);
      MatchAppend(b => b, Map(any, init), [AnyMatch(p, last)]);
      MatchAppend(p, Flatten(init), last);
      MatchChunks(p, init);
    }
  }

  /** all(threads, values, predicate): every chunk matches completely; true for an empty list. */
  method All<T(!new)>(threads: int, values: seq<T>, pred: T -> bool) returns (r: Result<bool, Exception>)
    ensures threads == 0 ==> r == Failure(Arithmetic)
    ensures threads < 0 ==> r == Success(true)
    ensures threads > 0 ==> r == Success(AllMatch(pred, values))
  {
    r := Run(threads, values, c => AllMatch(pred, c), rs => Success(AllMatch(b => b, rs)));
    if threads > 0 {
      ChunksCover(threads, values);
      MatchChunks(pred, Chunks(threads, values).value);
    }
  }

  /** any(threads, values, predicate): some chunk has a match; false for an empty list. */
  method Any<T(!new)>(threads: int, values: seq<T>, pred: T -> bool) returns (r: Result<bool, Exception>)
    ensures threads == 0 ==> r == Failure(Arithmetic)
    ensures threads < 0 ==> r == Success(false)
    ensures threads > 0 ==> r == Success(AnyMatch(pred, values))
  {
    r := Run(threads, values, c => AnyMatch(pred, c), rs => Success(AnyMatch(b => b, rs)));
    if threads > 0 {
      ChunksCover(threads, values);
      MatchChunks(pred, Chunks(threads, values).value);
    }
  }
}
