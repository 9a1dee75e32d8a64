/** WebCrawler: a depth-limited crawl that visits every url once. Downloads go through one
    admission queue per host, which lets at most perHost downloads of that host run at a time and
    keeps the others in arrival order. The executors and the Phaser are replaced by explicit
    transitions: a task is dispatched when the queue hands it to the downloading executor, and it
    finishes when the model says so. URLUtils.getHost is a map from the well-formed urls to their
    hosts and the Downloader a map from the reachable urls to their documents. */
module WebCrawler {
  import opened Wrappers

  /** The number of downloads of one host that may run at once: `submitted < perHost` never holds
      for a non-positive perHost, so then nothing is ever dispatched. */
  function Cap(perHost: int): nat {
    if perHost > 0 then perHost else 0
  }

  /** The state of a HostDownloadQueue: tasks that wait for their host (`taskQueue`) and the
      number admitted (`submitted`), together with what the downloading executor holds of this
      queue's tasks (`running`: dispatched and not finished) and the logs of every task handed to
      submitTask (`accepted`) and to the executor (`dispatched`). */
  datatype QueueState<T> = QueueState(taskQueue: seq<T>, submitted: int, running: multiset<T>,
                                      accepted: seq<T>, dispatched: seq<T>)

  /** A new queue: nothing waiting, nothing admitted. */
  function EmptyQueue<T>(): QueueState<T> {
    QueueState([], 0, multiset{}, [], [])
  }

  /** Admission never exceeds the cap, the admitted count is the number of running tasks, a task
      waits only while the cap is reached, and the accepted tasks are the dispatched ones followed
      by the waiting ones, in the order of acceptance. */
  ghost predicate QueueValid<T>(q: QueueState<T>, perHost: int) {
    && 0 <= q.submitted <= Cap(perHost)
    && q.submitted == |q.running|
    && (q.taskQueue != [] ==> q.submitted == Cap(perHost))
    && q.accepted == q.dispatched + q.taskQueue
  }

  /** Tasks accepted and not yet finished. */
  function QueuePending<T>(q: QueueState<T>): multiset<T> {
    q.running + multiset(q.taskQueue)
  }

  /** submitTask: below the cap a new task is admitted and dispatched at once; otherwise it joins
      the tail of the queue and the admitted count stays. Either way it is accepted and pending. */
  function Submit<T>(q: QueueState<T>, perHost: int, task: T): (r: QueueState<T>)
    ensures r.accepted == q.accepted + [task]
  {
    if q.submitted < perHost then
      QueueState(q.taskQueue, q.submitted + 1, q.running + multiset{task}, q.accepted + [task], q.dispatched + [task])
    else
      QueueState(q.taskQueue + [task], q.submitted, q.running, q.accepted + [task], q.dispatched)
  }

  /** executeNextTask, run when the running task `finished` ends: the head of the queue takes its
      place, with the admitted count unchanged; with nothing waiting the count drops by one. */
  function Next<T>(q: QueueState<T>, finished: T): (r: QueueState<T>)
    requires finished in q.running
    ensures r.accepted == q.accepted
  {
    if q.taskQueue != [] then
      QueueState(q.taskQueue[1..], q.submitted, q.running - multiset{finished} + multiset{q.taskQueue[0]},
                 q.accepted, q.dispatched + [q.taskQueue[0]])
    else
      QueueState(q.taskQueue, q.submitted - 1, q.running - multiset{finished}, q.accepted, q.dispatched)
  }

  /** A non-empty multiset has an element. */
  lemma SomeElement<T>(m: multiset<T>)
    requires m != multiset{}
    ensures exists x :: x in m
  {
    assert |m| != 0;
  }

  /** Taking one occurrence out of a multiset that has it. */
  lemma RemoveOne<T>(m: multiset<T>, x: T)
    requires x in m
    ensures |m - multiset{x}| == |m| - 1
    ensures m - multiset{x} <= m
    ensures m == (m - multiset{x}) + multiset{x}
  {
    assert m == (m - multiset{x}) + multiset{x};
  }

  /** Storing a key's own value changes nothing. */
  lemma OverwriteSame<K, V>(m: map<K, V>, k: K)
    requires k in m
    ensures m[k := m[k]] == m
  {
  }

  /** Storing twice under one key keeps the second value. */
  lemma OverwriteTwice<K, V>(m: map<K, V>, k: K, a: V, b: V)
    ensures m[k := a][k := b] == m[k := b]
  {
  }

  /** A new queue is valid for any cap. */
  lemma EmptyQueueValid<T>(perHost: int)
    ensures QueueValid(EmptyQueue<T>(), perHost) && QueuePending(EmptyQueue<T>()) == multiset{}
  {
  }

  /** submitTask keeps the queue valid. Below the cap a new task runs at once and the queue stays
      as it was; at the cap it waits at the tail and nothing else changes. */
  lemma SubmitValid<T>(q: QueueState<T>, perHost: int, task: T)
    requires QueueValid(q, perHost)
    ensures QueueValid(Submit(q, perHost, task), perHost)
    ensures q.submitted < perHost ==>
      && Submit(q, perHost, task).submitted == q.submitted + 1
      && Submit(q, perHost, task).taskQueue == q.taskQueue == []
      && Submit(q, perHost, task).dispatched == q.dispatched + [task]
    ensures q.submitted >= perHost ==>
      && Submit(q, perHost, task).submitted == q.submitted
      && Submit(q, perHost, task).taskQueue == q.taskQueue + [task]
      && Submit(q, perHost, task).running == q.running
  {
  }

  /** executeNextTask keeps the queue valid: a waiting task is dispatched in arrival order (the
      head of the queue) with the count unchanged, and an empty queue gives back one admission. */
  lemma NextValid<T>(q: QueueState<T>, perHost: int, finished: T)
    requires QueueValid(q, perHost) && finished in q.running
    ensures QueueValid(Next(q, finished), perHost)
    ensures q.taskQueue != [] ==>
      && Next(q, finished).submitted == q.submitted
      && Next(q, finished).dispatched == q.dispatched + [q.taskQueue[0]]
      && Next(q, finished).taskQueue == q.taskQueue[1..]
    ensures q.taskQueue == [] ==> Next(q, finished).submitted == q.submitted - 1
  {
    RemoveOne(q.running, finished);
    if q.taskQueue != [] {
      assert q.taskQueue == [q.taskQueue[0]] + q.taskQueue[1..];
      assert q.dispatched + q.taskQueue == (q.dispatched + [q.taskQueue[0]]) + q.taskQueue[1..];
    }
  }

  /** submitTask adds a submitted task to the pending ones. */
  lemma SubmitPending<T>(q: QueueState<T>, perHost: int, task: T)
    ensures QueuePending(Submit(q, perHost, task)) == QueuePending(q) + multiset{task}
  {
  }

  /** executeNextTask takes the finished task out of the pending ones. */
  lemma NextPending<T>(q: QueueState<T>, finished: T)
    requires finished in q.running
    ensures QueuePending(Next(q, finished)) == QueuePending(q) - multiset{finished}
  {
    if q.taskQueue != [] {
      assert q.taskQueue == [q.taskQueue[0]] + q.taskQueue[1..];
    }
  }

  /** An idle queue of a positive cap holds nothing: a task waits only while the cap is reached. */
  lemma IdleQueueIsEmpty<T>(q: QueueState<T>, perHost: int)
    requires QueueValid(q, perHost) && perHost > 0 && q.running == multiset{}
    ensures q.taskQueue == [] && QueuePending(q) == multiset{}
  {
  }

  /** HostDownloadQueue, with the source's two fields and, as the executor's side, the running
      tasks and the logs. Each method performs one transition of its state in place. */
  class HostDownloadQueue<T(==)> {
    const perHost: int
    var taskQueue: seq<T>
    var submitted: int
    var running: multiset<T>
    ghost var accepted: seq<T>
    ghost var dispatched: seq<T>

    ghost function State(): QueueState<T>
      reads this
    {
      QueueState(taskQueue, submitted, running, accepted, dispatched)
    }

    ghost predicate Valid()
      reads this
    {
      QueueValid(State(), perHost)
    }

    constructor(perHost: int)
      ensures Valid() && this.perHost == perHost && State() == EmptyQueue()
    {
      this.perHost := perHost;
      taskQueue := [];
      submitted := 0;
      running := multiset{};
      accepted := [];
      dispatched := [];
    }

    method SubmitTask(task: T)
      requires Valid()
      modifies this
      ensures Valid() && State() == Submit(old(State()), perHost, task)
    {
      ghost var next := Submit(State(), perHost, task);
      SubmitValid(State(), perHost, task);
      accepted := accepted + [task];
      if submitted < perHost {
        submitted := submitted + 1;
        running := running + multiset{task};
        dispatched := dispatched + [task];
      } else {
        taskQueue := taskQueue + [task];
      }
      assert State() == next;
    }

    method ExecuteNextTask(finished: T)
      requires Valid() && finished in running
      modifies this
      ensures Valid() && State() == Next(old(State()), finished)
    {
      NextValid(State(), perHost, finished);
      if taskQueue != [] {
        var other := taskQueue[0];
        taskQueue := taskQueue[1..];
        running := running - multiset{finished} + multiset{other};
        dispatched := dispatched + [other];
      } else {
        submitted := submitted - 1;
        running := running - multiset{finished};
      }
    }
  }

  /** A download task: the url and the depth it was reached with. */
  datatype Job = Job(url: string, depth: int)

  /** What Downloader.download returns: a document whose extractLinks gives the links, or None
      for the IOException that extractLinks may throw (and the crawler ignores). */
  datatype Document = Document(links: Option<seq<string>>)

  /** The two IOExceptions recorded in `errors`. */
  datatype CrawlError = MalformedUrl | DownloadFailed

  /** Result: the downloaded urls and the errors by url. */
  datatype CrawlResult = CrawlResult(downloaded: seq<string>, errors: map<string, CrawlError>)

  /** No two pending jobs share a url, and none is pending twice. */
  ghost predicate UniqueUrls(m: multiset<Job>) {
    forall j1, j2 :: j1 in m && j2 in m && j1.url == j2.url ==> j1 == j2 && m[j1] == 1
  }

  ghost predicate HasJobFor(m: multiset<Job>, url: string) {
    exists j :: j in m && j.url == url
  }

  /** Every url in flight has a pending job in the queue of its host. */
  ghost predicate InFlightPending(inFlight: map<string, string>, pending: map<string, multiset<Job>>) {
    forall u :: u in inFlight ==> inFlight[u] in pending && HasJobFor(pending[inFlight[u]], u)
  }

  /** Every pending job's url is in flight, with the host of the queue holding it. */
  ghost predicate PendingInFlight(inFlight: map<string, string>, pending: map<string, multiset<Job>>) {
    forall h, j :: h in pending && j in pending[h] ==> j.url in inFlight && inFlight[j.url] == h
  }

  ghost predicate AllUnique(pending: map<string, multiset<Job>>) {
    forall h :: h in pending ==> UniqueUrls(pending[h])
  }

  /** The urls in flight are exactly those of the pending jobs, each url is pending in the queue
      of its host, and it has one job there. */
  ghost predicate Tracked(inFlight: map<string, string>, pending: map<string, multiset<Job>>) {
    InFlightPending(inFlight, pending) && PendingInFlight(inFlight, pending) && AllUnique(pending)
  }

  /** A new host starts with no pending jobs. */
  lemma TrackedNewHost(inFlight: map<string, string>, pending: map<string, multiset<Job>>, h: string)
    requires Tracked(inFlight, pending) && h !in pending
    ensures Tracked(inFlight, pending[h := multiset{}])
  {
    var pending' := pending[h := multiset{}];
    forall u | u in inFlight ensures inFlight[u] in pending' && HasJobFor(pending'[inFlight[u]], u) {
      var w :| w in pending[inFlight[u]] && w.url == u;
      assert w in pending'[inFlight[u]];
    }
    assert InFlightPending(inFlight, pending');
    assert PendingInFlight(inFlight, pending') by {
      forall g: string, j: Job | g in pending' && j in pending'[g] ensures j.url in inFlight && inFlight[j.url] == g {
        assert j in pending[g];
      }
    }
  }

  lemma SubmitInFlightPending(inFlight: map<string, string>, pending: map<string, multiset<Job>>, h: string, job: Job)
    requires InFlightPending(inFlight, pending) && h in pending
    ensures InFlightPending(inFlight[job.url := h], pending[h := pending[h] + multiset{job}])
  {
    var inFlight', pending' := inFlight[job.url := h], pending[h := pending[h] + multiset{job}];
    forall u | u in inFlight' ensures inFlight'[u] in pending' && HasJobFor(pending'[inFlight'[u]], u) {
      if u == job.url {
        assert job in pending'[h];
      } else {
        var w :| w in pending[inFlight[u]] && w.url == u;
        assert w in pending'[inFlight'[u]];
      }
    }
  }

  lemma SubmitPendingInFlight(inFlight: map<string, string>, pending: map<string, multiset<Job>>, h: string, job: Job)
    requires PendingInFlight(inFlight, pending) && h in pending && job.url !in inFlight
    ensures PendingInFlight(inFlight[job.url := h], pending[h := pending[h] + multiset{job}])
  {
    var inFlight', pending' := inFlight[job.url := h], pending[h := pending[h] + multiset{job}];
    forall g: string, j: Job | g in pending' && j in pending'[g] ensures j.url in inFlight' && inFlight'[j.url] == g {
      if j != job || g != h {
        assert j in pending[g];
      }
    }
  }

  /** Submitting a job for a url not in flight puts it in flight with the host of its queue. */
  lemma TrackedSubmit(inFlight: map<string, string>, pending: map<string, multiset<Job>>, h: string, job: Job)
    requires Tracked(inFlight, pending) && h in pending && job.url !in inFlight
    ensures Tracked(inFlight[job.url := h], pending[h := pending[h] + multiset{job}])
  {
    SubmitInFlightPending(inFlight, pending, h, job);
    SubmitPendingInFlight(inFlight, pending, h, job);
    assert forall j :: j in pending[h] ==> j.url != job.url;
    UniqueUrlsAdd(pending[h], job);
  }

  lemma UniqueUrlsAdd(m: multiset<Job>, job: Job)
    requires UniqueUrls(m) && forall j :: j in m ==> j.url != job.url
    ensures UniqueUrls(m + multiset{job})
  {
  }

  lemma UniqueUrlsRemove(m: multiset<Job>, job: Job)
    requires UniqueUrls(m) && job in m
    ensures UniqueUrls(m - multiset{job})
    ensures forall j :: j in m - multiset{job} ==> j.url != job.url
  {
  }

  lemma FinishInFlightPending(inFlight: map<string, string>, pending: map<string, multiset<Job>>, h: string, job: Job)
    requires InFlightPending(inFlight, pending) && h in pending && job in pending[h]
    requires forall j :: j in pending[h] - multiset{job} ==> j.url != job.url
    ensures InFlightPending(inFlight - {job.url}, pending[h := pending[h] - multiset{job}])
  {
    var inFlight', pending' := inFlight - {job.url}, pending[h := pending[h] - multiset{job}];
    forall u | u in inFlight' ensures inFlight'[u] in pending' && HasJobFor(pending'[inFlight'[u]], u) {
      var w :| w in pending[inFlight[u]] && w.url == u;
      assert w in pending'[inFlight'[u]];
    }
  }

  lemma FinishPendingInFlight(inFlight: map<string, string>, pending: map<string, multiset<Job>>, h: string, job: Job)
    requires PendingInFlight(inFlight, pending) && h in pending && job in pending[h]
    requires forall j :: j in pending[h] - multiset{job} ==> j.url != job.url
    ensures PendingInFlight(inFlight - {job.url}, pending[h := pending[h] - multiset{job}])
  {
    var inFlight', pending' := inFlight - {job.url}, pending[h := pending[h] - multiset{job}];
    forall g: string, j: Job | g in pending' && j in pending'[g] ensures j.url in inFlight' && inFlight'[j.url] == g {
      assert j in pending[g];
    }
  }

  /** A finished job leaves flight, and no other pending job has its url. */
  lemma TrackedFinish(inFlight: map<string, string>, pending: map<string, multiset<Job>>, h: string, job: Job)
    requires Tracked(inFlight, pending) && h in pending && job in pending[h]
    ensures job.url in inFlight && inFlight[job.url] == h
    ensures Tracked(inFlight - {job.url}, pending[h := pending[h] - multiset{job}])
  {
    UniqueUrlsRemove(pending[h], job);
    FinishInFlightPending(inFlight, pending, h, job);
    FinishPendingInFlight(inFlight, pending, h, job);
  }

  /** With nothing pending anywhere, nothing is in flight. */
  lemma TrackedIdle(inFlight: map<string, string>, pending: map<string, multiset<Job>>)
    requires Tracked(inFlight, pending)
    requires forall h :: h in pending ==> pending[h] == multiset{}
    ensures inFlight == map[]
  {
  }

  /** The links of the document at u, when u downloads and extractLinks succeeds. */
  ghost function LinksOf(web: map<string, Document>, u: string): set<string> {
    if u in web && web[u].links.Some? then set v | v in web[u].links.value else {}
  }

  /** The urls a crawl over `web` from `start` can name: start and the links of every document.
      Whatever a crawl processes lies in this finite set. */
  ghost function LinkTargets(start: string, web: map<string, Document>): set<string> {
    {start} + set u, v | u in web && v in LinksOf(web, u) :: v
  }

  /** The urls at most k link hops from start, where a hop follows a link of a document that
      downloads and whose links extract. */
  ghost function Within(web: map<string, Document>, start: string, k: nat): set<string>
    decreases k
  {
    if k == 0 then {start}
    else
      var near := Within(web, start, k - 1);
      near + set u, v | u in near && v in LinksOf(web, u) :: v
  }

  /** The urls at the end of a walk of exactly k links from start, each link taken from a
      document that downloads and whose links extract. */
  ghost function Hops(web: map<string, Document>, start: string, k: nat): set<string>
    decreases k
  {
    if k == 0 then {start}
    else set u, v | u in Hops(web, start, k - 1) && v in LinksOf(web, u) :: v
  }

  /** A walk of k links ends at most k hops from start. */
  lemma {:induction false} HopsWithin(web: map<string, Document>, start: string, k: nat)
    ensures Hops(web, start, k) <= Within(web, start, k)
    decreases k
  {
    if k > 0 {
      HopsWithin(web, start, k - 1);
    }
  }

  /** u is some number of link hops from start. */
  ghost predicate Reaches(web: map<string, Document>, start: string, u: string) {
    exists k: nat :: u in Within(web, start, k)
  }

  /** A link of a url k hops away is at most k + 1 hops away. */
  lemma WithinStep(web: map<string, Document>, start: string, k: nat, u: string, v: string)
    requires u in Within(web, start, k) && v in LinksOf(web, u)
    ensures v in Within(web, start, k + 1)
  {
  }

  /** Allowing more hops reaches no fewer urls. */
  lemma {:induction false} WithinMono(web: map<string, Document>, start: string, k: nat, k': nat)
    requires k <= k'
    ensures Within(web, start, k) <= Within(web, start, k')
    decreases k'
  {
    if k < k' {
      WithinMono(web, start, k, k' - 1);
    }
  }

  /** What is some hops away is a link target. */
  lemma {:induction false} WithinTargets(web: map<string, Document>, start: string, k: nat)
    ensures Within(web, start, k) <= LinkTargets(start, web)
    decreases k
  {
    if k > 0 {
      WithinTargets(web, start, k - 1);
      var near := Within(web, start, k - 1);
      forall v | v in Within(web, start, k) ensures v in LinkTargets(start, web) {
        if v !in near {
          var u :| u in near && v in LinksOf(web, u);
          assert u in web;
        }
      }
    }
  }

  /** u is processed with the remaining depth d in a crawl from start to the depth maxDepth: it
      ends a walk of exactly maxDepth - d links from start, and under a positive maxDepth the
      remaining depth is positive too. */
  ghost predicate Placed(web: map<string, Document>, start: string, maxDepth: int, u: string, d: int) {
    && d <= maxDepth
    && (maxDepth > 0 ==> d > 0)
    && u in Hops(web, start, maxDepth - d)
  }

  /** A link of a page processed with the remaining depth d, processed at d - 1. */
  lemma PlacedLink(web: map<string, Document>, start: string, maxDepth: int, u: string, d: int, v: string)
    requires Placed(web, start, maxDepth, u, d) && v in LinksOf(web, u) && d - 1 != 0
    ensures Placed(web, start, maxDepth, v, d - 1)
  {
    assert v in Hops(web, start, maxDepth - d + 1);
  }

  /** Visiting a new url leaves fewer urls to visit. */
  lemma FewerUnvisited(U: set<string>, p: set<string>, p': set<string>)
    requires p <= p' <= U && p' != p
    ensures |U - p'| < |U - p|
  {
    var x :| x in p' && x !in p;
    assert U - p' <= (U - p) - {x};
    SubsetCard(U - p', (U - p) - {x});
  }

  /** Removing a key leaves fewer keys. */
  lemma FewerKeys(m: map<string, string>, k: string)
    requires k in m
    ensures |(m - {k}).Keys| < |m.Keys|
  {
    assert (m - {k}).Keys == m.Keys - {k};
  }

  lemma {:induction false} SubsetCard<T>(a: set<T>, b: set<T>)
    requires a <= b
    ensures |a| <= |b|
    decreases |b|
  {
    if a != {} {
      var x :| x in a;
      SubsetCard(a - {x}, b - {x});
    }
  }

  /** Every host's queue is valid and holds exactly the pending jobs recorded for the host. */
  ghost predicate QueuesHold(queues: map<string, QueueState<Job>>, pending: map<string, multiset<Job>>, perHost: int) {
    && (forall h :: h in pending <==> h in queues)
    && (forall h :: h in queues ==> QueueValid(queues[h], perHost) && QueuePending(queues[h]) == pending[h])
  }

  /** The outcome of one url: processed exactly when it is downloaded, failed or still in flight,
      and only one of them; downloaded only when its download succeeds; an error names its cause;
      in flight only with its host. */
  ghost predicate UrlOutcome(u: string, processed: set<string>, downloaded: set<string>, errors: map<string, CrawlError>,
                             inFlight: map<string, string>, hosts: map<string, string>, web: map<string, Document>)
  {
    && (u in processed <==> u in downloaded || u in errors || u in inFlight)
    && (u in downloaded ==> u !in errors && u !in inFlight && u in web)
    && (u in errors ==> u !in inFlight && (errors[u] == MalformedUrl <==> u !in hosts))
    && (u in errors && errors[u] == DownloadFailed ==> u !in web)
    && (u in inFlight ==> u in hosts && hosts[u] == inFlight[u])
  }

  /** Every url has a consistent outcome. */
  ghost predicate Outcomes(processed: set<string>, downloaded: set<string>, errors: map<string, CrawlError>,
                           inFlight: map<string, string>, hosts: map<string, string>, web: map<string, Document>)
  {
    forall u :: UrlOutcome(u, processed, downloaded, errors, inFlight, hosts, web)
  }

  /** A malformed url is processed and recorded as such. */
  lemma OutcomesMalformed(processed: set<string>, downloaded: set<string>, errors: map<string, CrawlError>,
                          inFlight: map<string, string>, hosts: map<string, string>, web: map<string, Document>, url: string)
    requires Outcomes(processed, downloaded, errors, inFlight, hosts, web)
    requires url !in processed && url !in hosts
    ensures Outcomes(processed + {url}, downloaded, errors[url := MalformedUrl], inFlight, hosts, web)
  {
    var processed', errors' := processed + {url}, errors[url := MalformedUrl];
    forall u ensures UrlOutcome(u, processed', downloaded, errors', inFlight, hosts, web) {
      assert UrlOutcome(u, processed, downloaded, errors, inFlight, hosts, web);
    }
  }

  /** A submitted url is processed and in flight with its host. */
  lemma OutcomesSubmit(processed: set<string>, downloaded: set<string>, errors: map<string, CrawlError>,
                       inFlight: map<string, string>, hosts: map<string, string>, web: map<string, Document>,
                       url: string, h: string)
    requires Outcomes(processed, downloaded, errors, inFlight, hosts, web)
    requires url !in processed && url in hosts && hosts[url] == h
    ensures Outcomes(processed + {url}, downloaded, errors, inFlight[url := h], hosts, web)
  {
    var processed', inFlight' := processed + {url}, inFlight[url := h];
    forall u ensures UrlOutcome(u, processed', downloaded, errors, inFlight', hosts, web) {
      assert UrlOutcome(u, processed, downloaded, errors, inFlight, hosts, web);
    }
  }

  /** A url in flight that downloads leaves flight for `downloaded`. */
  lemma OutcomesDownloaded(processed: set<string>, downloaded: set<string>, errors: map<string, CrawlError>,
                           inFlight: map<string, string>, hosts: map<string, string>, web: map<string, Document>,
                           url: string)
    requires Outcomes(processed, downloaded, errors, inFlight, hosts, web)
    requires url in inFlight && url in web
    ensures Outcomes(processed, downloaded + {url}, errors, inFlight - {url}, hosts, web)
  {
    var downloaded', inFlight' := downloaded + {url}, inFlight - {url};
    forall u ensures UrlOutcome(u, processed, downloaded', errors, inFlight', hosts, web) {
      assert UrlOutcome(u, processed, downloaded, errors, inFlight, hosts, web);
    }
  }

  /** A url in flight whose download fails leaves flight for `errors`. */
  lemma OutcomesFailed(processed: set<string>, downloaded: set<string>, errors: map<string, CrawlError>,
                       inFlight: map<string, string>, hosts: map<string, string>, web: map<string, Document>,
                       url: string)
    requires Outcomes(processed, downloaded, errors, inFlight, hosts, web)
    requires url in inFlight && url !in web
    ensures Outcomes(processed, downloaded, errors[url := DownloadFailed], inFlight - {url}, hosts, web)
  {
    var errors', inFlight' := errors[url := DownloadFailed], inFlight - {url};
    forall u ensures UrlOutcome(u, processed, downloaded, errors', inFlight', hosts, web) {
      assert UrlOutcome(u, processed, downloaded, errors, inFlight, hosts, web);
    }
  }

  /** With nothing in flight every processed url is downloaded or an error, never both; the
      downloaded urls are in the web and every error names its cause. */
  lemma OutcomesSettled(processed: set<string>, downloaded: set<string>, errors: map<string, CrawlError>,
                        hosts: map<string, string>, web: map<string, Document>)
    requires Outcomes(processed, downloaded, errors, map[], hosts, web)
    ensures forall u :: u in processed <==> u in downloaded || u in errors
    ensures forall u :: u in downloaded ==> u !in errors && u in web
    ensures forall u :: u in errors ==> (errors[u] == MalformedUrl <==> u !in hosts)
    ensures forall u :: u in errors && errors[u] == DownloadFailed ==> u !in web
  {
    var none: map<string, string> := map[];
    forall u ensures u in processed <==> u in downloaded || u in errors {
      assert UrlOutcome(u, processed, downloaded, errors, none, hosts, web);
    }
    forall u ensures u in downloaded ==> u !in errors && u in web {
      assert UrlOutcome(u, processed, downloaded, errors, none, hosts, web);
    }
    forall u ensures u in errors ==> (errors[u] == MalformedUrl <==> u !in hosts) {
      assert UrlOutcome(u, processed, downloaded, errors, none, hosts, web);
    }
    forall u ensures u in errors && errors[u] == DownloadFailed ==> u !in web {
      assert UrlOutcome(u, processed, downloaded, errors, none, hosts, web);
    }
  }

  /** Replacing one host's queue by a valid one records that queue's pending jobs for the host. */
  lemma QueuesHoldUpdate(queues: map<string, QueueState<Job>>, pending: map<string, multiset<Job>>, perHost: int,
                         h: string, q: QueueState<Job>)
    requires QueuesHold(queues, pending, perHost) && QueueValid(q, perHost)
    ensures QueuesHold(queues[h := q], pending[h := QueuePending(q)], perHost)
  {
  }

  /** When no queue of a positive cap has a running task, nothing is pending and nothing is in
      flight. */
  lemma IdleNothingInFlight(queues: map<string, QueueState<Job>>, pending: map<string, multiset<Job>>,
                            inFlight: map<string, string>, perHost: int)
    requires QueuesHold(queues, pending, perHost) && Tracked(inFlight, pending) && perHost > 0
    requires forall h :: h in queues ==> queues[h].running == multiset{}
    ensures inFlight == map[]
  {
    forall h | h in pending
      ensures pending[h] == multiset{}
    {
      IdleQueueIsEmpty(queues[h], perHost);
    }
    TrackedIdle(inFlight, pending);
  }

  /** The collections of one download(url, depth) call: the urls processed, downloaded and failed
      (with the cause), the crawler's host queues by host (the map of getDownloadQueue, each queue
      held by its state, here empty when the call starts) and the extracting tasks submitted and
      not yet finished, each named by the job whose page it extracts. As ghost state: the host of every url submitted and not finished,
      the jobs pending in every host's queue, the remaining depth every url was processed at, and
      for every url processed from a link, the page whose extracting task processed it. */
  datatype CrawlState = CrawlState(processed: set<string>, downloaded: set<string>, errors: map<string, CrawlError>,
                                   queues: map<string, QueueState<Job>>, extracting: set<Job>,
                                   ghost inFlight: map<string, string>, ghost pending: map<string, multiset<Job>>,
                                   ghost depthOf: map<string, int>, ghost parentOf: map<string, string>)

  /** The queues hold the pending jobs, the outcomes are consistent and every url in flight has
      its one pending job. */
  ghost predicate CrawlValid(s: CrawlState, perHost: int, hosts: map<string, string>, web: map<string, Document>) {
    && QueuesHold(s.queues, s.pending, perHost)
    && Outcomes(s.processed, s.downloaded, s.errors, s.inFlight, hosts, web)
    && Tracked(s.inFlight, s.pending)
  }

  /** Every pending job carries the depth its url was processed at. */
  ghost predicate DepthsAgree(pending: map<string, multiset<Job>>, depthOf: map<string, int>) {
    forall h, j :: h in pending && j in pending[h] ==> j.url in depthOf && depthOf[j.url] == j.depth
  }

  /** An extracting task belongs to a downloaded page and carries the depth it was processed at. */
  ghost predicate ExtractingDownloaded(s: CrawlState) {
    forall j :: j in s.extracting ==> j.url in s.downloaded && j.url in s.depthOf && s.depthOf[j.url] == j.depth
  }

  /** Each processed url has its remaining depth, which places it that many hops short of the
      crawl's depth away from the start. */
  ghost predicate DepthsPlaced(s: CrawlState, start: string, maxDepth: int, web: map<string, Document>) {
    && s.depthOf.Keys == s.processed
    && forall u :: u in s.depthOf ==> Placed(web, start, maxDepth, u, s.depthOf[u])
  }

  /** The links of a downloaded page are all processed, unless the page was processed at depth 1
      (its links would be processed at depth 0) or its extracting task has not run yet. */
  ghost predicate LinksFollowed(s: CrawlState, web: map<string, Document>) {
    forall u :: u in s.downloaded && u in s.depthOf && s.depthOf[u] != 1 && Job(u, s.depthOf[u]) !in s.extracting ==>
      LinksOf(web, u) <= s.processed
  }

  /** Where process(u, d) is called from: the seed by download itself, at the crawl's depth, or
      a link of the downloaded page p by p's extracting task, one below the depth p was processed
      at. */
  ghost predicate Origin(downloaded: set<string>, depthOf: map<string, int>, start: string, maxDepth: int,
                         web: map<string, Document>, u: string, d: int, from: Option<string>) {
    match from
    case None => u == start && d == maxDepth
    case Some(p) => p in downloaded && p in depthOf && u in LinksOf(web, p) && d == depthOf[p] - 1
  }

  /** The recorded origin of a processed url: its parent page, or none for the seed. */
  ghost function OriginOf(parentOf: map<string, string>, u: string): Option<string> {
    if u in parentOf then Some(parentOf[u]) else None
  }

  /** Every processed url has its origin: the seed was processed at the crawl's depth, and any
      other url from a downloaded page that links to it, at one below that page's depth. */
  ghost predicate Derived(downloaded: set<string>, depthOf: map<string, int>, parentOf: map<string, string>,
                          start: string, maxDepth: int, web: map<string, Document>) {
    && parentOf.Keys <= depthOf.Keys
    && forall u {:trigger OriginOf(parentOf, u)} :: u in depthOf ==>
         Origin(downloaded, depthOf, start, maxDepth, web, u, depthOf[u], OriginOf(parentOf, u))
  }

  /** What the depth rule of process and the extracting tasks keep true of a crawl. */
  ghost predicate CrawlSound(s: CrawlState, start: string, maxDepth: int, web: map<string, Document>) {
    && DepthsPlaced(s, start, maxDepth, web)
    && DepthsAgree(s.pending, s.depthOf)
    && ExtractingDownloaded(s)
    && LinksFollowed(s, web)
    && Derived(s.downloaded, s.depthOf, s.parentOf, start, maxDepth, web)
  }

  /** A url processed from its origin is placed: the seed at the crawl's depth, and a link one
      below its page. */
  lemma OriginPlaced(s: CrawlState, start: string, maxDepth: int, web: map<string, Document>,
                     u: string, d: int, from: Option<string>)
    requires DepthsPlaced(s, start, maxDepth, web) && Origin(s.downloaded, s.depthOf, start, maxDepth, web, u, d, from) && d != 0
    ensures Placed(web, start, maxDepth, u, d)
  {
    if from.Some? {
      PlacedLink(web, start, maxDepth, from.value, s.depthOf[from.value], u);
    }
  }

  /** More downloaded pages keep every origin. */
  lemma DerivedMoreDownloaded(downloaded: set<string>, downloaded': set<string>, depthOf: map<string, int>,
                              parentOf: map<string, string>, start: string, maxDepth: int, web: map<string, Document>)
    requires Derived(downloaded, depthOf, parentOf, start, maxDepth, web) && downloaded <= downloaded'
    ensures Derived(downloaded', depthOf, parentOf, start, maxDepth, web)
  {
    forall u | u in depthOf ensures Origin(downloaded', depthOf, start, maxDepth, web, u, depthOf[u], OriginOf(parentOf, u)) {
      assert Origin(downloaded, depthOf, start, maxDepth, web, u, depthOf[u], OriginOf(parentOf, u));
    }
  }

  /** A new url processed from its origin keeps every origin, with its own recorded. */
  lemma DerivedProcessed(downloaded: set<string>, depthOf: map<string, int>, parentOf: map<string, string>,
                         start: string, maxDepth: int, web: map<string, Document>,
                         url: string, depth: int, from: Option<string>)
    requires Derived(downloaded, depthOf, parentOf, start, maxDepth, web) && url !in depthOf
    requires Origin(downloaded, depthOf, start, maxDepth, web, url, depth, from)
    ensures Derived(downloaded, depthOf[url := depth], if from.Some? then parentOf[url := from.value] else parentOf,
                    start, maxDepth, web)
  {
    var depthOf', parentOf' := depthOf[url := depth], if from.Some? then parentOf[url := from.value] else parentOf;
    forall u | u in depthOf' ensures Origin(downloaded, depthOf', start, maxDepth, web, u, depthOf'[u], OriginOf(parentOf', u)) {
      if u != url {
        assert Origin(downloaded, depthOf, start, maxDepth, web, u, depthOf[u], OriginOf(parentOf, u));
        if u in parentOf {
          assert parentOf[u] in depthOf;
        }
      } else if from.Some? {
        assert from.value in depthOf;
      }
    }
  }

  /** Everything processed is a link target, so a crawl processes finitely many urls. */
  lemma ProcessedTargets(s: CrawlState, start: string, maxDepth: int, web: map<string, Document>)
    requires DepthsPlaced(s, start, maxDepth, web)
    ensures s.processed <= LinkTargets(start, web)
  {
    forall u | u in s.processed ensures u in LinkTargets(start, web) {
      HopsWithin(web, start, maxDepth - s.depthOf[u]);
      WithinTargets(web, start, maxDepth - s.depthOf[u]);
    }
  }

  lemma DepthsAgreeNewHost(pending: map<string, multiset<Job>>, depthOf: map<string, int>, h: string)
    requires DepthsAgree(pending, depthOf)
    ensures DepthsAgree(pending[h := multiset{}], depthOf)
  {
  }

  lemma DepthsAgreeExtend(pending: map<string, multiset<Job>>, depthOf: map<string, int>, url: string, d: int)
    requires DepthsAgree(pending, depthOf) && url !in depthOf
    ensures DepthsAgree(pending, depthOf[url := d])
  {
  }

  lemma DepthsAgreeSubmit(pending: map<string, multiset<Job>>, depthOf: map<string, int>, h: string, job: Job)
    requires DepthsAgree(pending, depthOf) && h in pending && job.url !in depthOf
    ensures DepthsAgree(pending[h := pending[h] + multiset{job}], depthOf[job.url := job.depth])
  {
    var pending', depthOf' := pending[h := pending[h] + multiset{job}], depthOf[job.url := job.depth];
    forall g: string, j: Job | g in pending' && j in pending'[g] ensures j.url in depthOf' && depthOf'[j.url] == j.depth {
      if j != job || g != h {
        assert j in pending[g];
      }
    }
  }

  lemma DepthsAgreeFinish(pending: map<string, multiset<Job>>, depthOf: map<string, int>, h: string, job: Job)
    requires DepthsAgree(pending, depthOf) && h in pending
    ensures DepthsAgree(pending[h := pending[h] - multiset{job}], depthOf)
  {
    var pending' := pending[h := pending[h] - multiset{job}];
    forall g: string, j: Job | g in pending' && j in pending'[g] ensures j.url in depthOf && depthOf[j.url] == j.depth {
      assert j in pending[g];
    }
  }

  /** Processing a new url at a depth that places it keeps every depth placed, the extracting
      tasks and the links followed. */
  lemma PlacedProcessed(s: CrawlState, s': CrawlState, url: string, depth: int,
                        start: string, maxDepth: int, web: map<string, Document>)
    requires CrawlSound(s, start, maxDepth, web) && url !in s.processed && url !in s.downloaded
    requires Placed(web, start, maxDepth, url, depth)
    requires s'.processed == s.processed + {url} && s'.downloaded == s.downloaded && s'.extracting == s.extracting
    requires s'.depthOf == s.depthOf[url := depth]
    ensures DepthsPlaced(s', start, maxDepth, web) && ExtractingDownloaded(s') && LinksFollowed(s', web)
  {
    forall u | u in s'.downloaded && u in s'.depthOf && s'.depthOf[u] != 1 && Job(u, s'.depthOf[u]) !in s'.extracting
      ensures LinksOf(web, u) <= s'.processed
    {
      assert u in s.depthOf;
    }
    forall j | j in s'.extracting ensures j.url in s'.downloaded && j.url in s'.depthOf && s'.depthOf[j.url] == j.depth {
      assert j.url in s.depthOf;
    }
  }

  /** Processing a new url from its origin keeps the crawl sound. */
  lemma SoundProcessed(s: CrawlState, s': CrawlState, url: string, depth: int, from: Option<string>,
                       start: string, maxDepth: int, web: map<string, Document>)
    requires CrawlSound(s, start, maxDepth, web) && url !in s.processed && url !in s.downloaded
    requires Origin(s.downloaded, s.depthOf, start, maxDepth, web, url, depth, from) && depth != 0
    requires s'.processed == s.processed + {url} && s'.downloaded == s.downloaded && s'.extracting == s.extracting
    requires s'.depthOf == s.depthOf[url := depth] && DepthsAgree(s'.pending, s'.depthOf)
    requires s'.parentOf == if from.Some? then s.parentOf[url := from.value] else s.parentOf
    ensures CrawlSound(s', start, maxDepth, web)
  {
    OriginPlaced(s, start, maxDepth, web, url, depth, from);
    PlacedProcessed(s, s', url, depth, start, maxDepth, web);
    DerivedProcessed(s.downloaded, s.depthOf, s.parentOf, start, maxDepth, web, url, depth, from);
  }

  /** The crawl once the download task of `job` on host h has finished: its url leaves flight for
      `downloaded`, with its extracting task submitted, when the web has it, and for `errors`
      otherwise; the queue runs its next task. */
  function Finished(s: CrawlState, h: string, job: Job, web: map<string, Document>): (r: CrawlState)
    requires h in s.queues && h in s.pending && job in s.queues[h].running
    ensures r.processed == s.processed && r.depthOf == s.depthOf && r.parentOf == s.parentOf
    ensures r.queues == s.queues[h := Next(s.queues[h], job)]
    ensures r.inFlight == s.inFlight - {job.url}
    ensures r.pending == s.pending[h := s.pending[h] - multiset{job}]
    ensures job.url in web ==>
      r.downloaded == s.downloaded + {job.url} && r.errors == s.errors && r.extracting == s.extracting + {job}
    ensures job.url !in web ==>
      r.downloaded == s.downloaded && r.errors == s.errors[job.url := DownloadFailed] && r.extracting == s.extracting
  {
    var queues := s.queues[h := Next(s.queues[h], job)];
    var inFlight := s.inFlight - {job.url};
    var pending := s.pending[h := s.pending[h] - multiset{job}];
    if job.url in web then
      CrawlState(s.processed, s.downloaded + {job.url}, s.errors, queues, s.extracting + {job}, inFlight, pending,
                 s.depthOf, s.parentOf)
    else
      CrawlState(s.processed, s.downloaded, s.errors[job.url := DownloadFailed], queues, s.extracting, inFlight, pending,
                 s.depthOf, s.parentOf)
  }

  /** Finishing a running task keeps the crawl valid; its url was in flight. */
  lemma FinishedValid(s: CrawlState, perHost: int, hosts: map<string, string>, web: map<string, Document>,
                      h: string, job: Job)
    requires CrawlValid(s, perHost, hosts, web) && h in s.queues && job in s.queues[h].running
    ensures job.url in s.inFlight && h in s.pending && job in s.pending[h]
    ensures CrawlValid(Finished(s, h, job, web), perHost, hosts, web)
  {
    assert job in s.pending[h];
    var q := Next(s.queues[h], job);
    TrackedFinish(s.inFlight, s.pending, h, job);
    NextValid(s.queues[h], perHost, job);
    NextPending(s.queues[h], job);
    QueuesHoldUpdate(s.queues, s.pending, perHost, h, q);
    if job.url in web {
      OutcomesDownloaded(s.processed, s.downloaded, s.errors, s.inFlight, hosts, web, job.url);
    } else {
      OutcomesFailed(s.processed, s.downloaded, s.errors, s.inFlight, hosts, web, job.url);
    }
  }

  /** Every url of d0 keeps its depth in d1: a url's depth is fixed when it is first processed. */
  ghost predicate DepthsKept(d0: map<string, int>, d1: map<string, int>) {
    forall v :: v in d0 ==> v in d1 && d1[v] == d0[v]
  }

  /** How a later state of a crawl relates to an earlier one: more urls processed, and the
      depths of the earlier ones kept. */
  ghost predicate Since(s0: CrawlState, s1: CrawlState) {
    s0.processed <= s1.processed && DepthsKept(s0.depthOf, s1.depthOf)
  }

  lemma SinceTransitive(s0: CrawlState, s1: CrawlState, s2: CrawlState)
    requires Since(s0, s1) && Since(s1, s2)
    ensures Since(s0, s2)
  {
  }

  /** The urls of a list of links. */
  ghost function Elements(links: seq<string>): set<string> {
    set v | v in links
  }

  /** One more link of the list adds that link. */
  lemma ElementsNext(links: seq<string>, i: int)
    requires 0 <= i < |links|
    ensures Elements(links[..i + 1]) == Elements(links[..i]) + {links[i]}
  {
    assert links[..i + 1] == links[..i] + [links[i]];
  }

  /** How the crawl state after processing the links `done` of a page at `depth` relates to the
      state before: only processed urls, their depths and what is in flight change; every new url
      is one of `done` and has the depth, and every one of `done` is processed when the depth is
      not 0. */
  ghost predicate LinksStep(s0: CrawlState, s: CrawlState, done: set<string>, depth: int, from: string) {
    && s.downloaded == s0.downloaded && s.extracting == s0.extracting
    && s0.processed <= s.processed <= s0.processed + done
    && (depth != 0 ==> done <= s.processed)
    && DepthsKept(s0.depthOf, s.depthOf)
    && (forall v :: v in s.processed && v !in s0.processed ==> v in s.depthOf && s.depthOf[v] == depth)
    && (forall v :: v in s.processed && v !in s0.processed ==> v in s.parentOf && s.parentOf[v] == from)
    && (s.processed == s0.processed ==> s.inFlight == s0.inFlight)
  }

  /** Processing one more link at the depth extends the relation. */
  lemma LinksStepNext(s0: CrawlState, s1: CrawlState, s2: CrawlState, done: set<string>, url: string, depth: int,
                      from: string)
    requires LinksStep(s0, s1, done, depth, from) && s1.depthOf.Keys == s1.processed
    requires s2.downloaded == s1.downloaded && s2.extracting == s1.extracting
    requires depth == 0 || url in s1.processed ==> s2 == s1
    requires depth != 0 && url !in s1.processed ==>
      && s2.processed == s1.processed + {url} && s2.depthOf == s1.depthOf[url := depth]
      && s2.parentOf == s1.parentOf[url := from]
    ensures LinksStep(s0, s2, done + {url}, depth, from)
  {
  }

  /** Once no extracting task is left, the links of every downloaded page not processed at depth
      1 are processed. */
  lemma SettledLinks(s: CrawlState, perHost: int, hosts: map<string, string>, web: map<string, Document>,
                     start: string, maxDepth: int)
    requires CrawlValid(s, perHost, hosts, web) && CrawlSound(s, start, maxDepth, web) && s.extracting == {}
    ensures forall u :: u in s.downloaded ==>
      u in s.depthOf && (s.depthOf[u] != 1 ==> LinksOf(web, u) <= s.processed)
  {
    forall u | u in s.downloaded ensures u in s.depthOf && (s.depthOf[u] != 1 ==> LinksOf(web, u) <= s.processed) {
      assert UrlOutcome(u, s.processed, s.downloaded, s.errors, s.inFlight, hosts, web);
    }
  }

  /** A finished download keeps the crawl sound: a downloaded page gets its extracting task, with
      the depth the page was processed at. */
  lemma SoundFinished(s: CrawlState, r: CrawlState, job: Job, start: string, maxDepth: int, web: map<string, Document>)
    requires CrawlSound(s, start, maxDepth, web)
    requires job.url in s.depthOf && s.depthOf[job.url] == job.depth
    requires r.processed == s.processed && r.depthOf == s.depthOf && r.parentOf == s.parentOf
    requires DepthsAgree(r.pending, r.depthOf)
    requires || (r.downloaded == s.downloaded + {job.url} && r.extracting == s.extracting + {job})
             || (r.downloaded == s.downloaded && r.extracting == s.extracting)
    ensures CrawlSound(r, start, maxDepth, web)
  {
    DerivedMoreDownloaded(s.downloaded, r.downloaded, s.depthOf, s.parentOf, start, maxDepth, web);
  }

  /** Finishing a running task keeps the crawl sound; the task's job has its url's depth. */
  lemma FinishedSound(s: CrawlState, perHost: int, hosts: map<string, string>, web: map<string, Document>,
                      start: string, maxDepth: int, h: string, job: Job)
    requires CrawlValid(s, perHost, hosts, web) && CrawlSound(s, start, maxDepth, web)
    requires h in s.queues && job in s.queues[h].running
    ensures job.url in s.depthOf && s.depthOf[job.url] == job.depth
    ensures CrawlSound(Finished(s, h, job, web), start, maxDepth, web)
  {
    assert QueuePending(s.queues[h]) == s.pending[h];
    assert job in s.pending[h];
    DepthsAgreeFinish(s.pending, s.depthOf, h, job);
    SoundFinished(s, Finished(s, h, job, web), job, start, maxDepth, web);
  }

  /** An extracting task that has processed the links of its page leaves the crawl sound. */
  lemma ExtractedSound(s: CrawlState, start: string, maxDepth: int, web: map<string, Document>, job: Job)
    requires CrawlSound(s, start, maxDepth, web) && job in s.extracting
    requires job.depth != 1 ==> LinksOf(web, job.url) <= s.processed
    ensures CrawlSound(s.(extracting := s.extracting - {job}), start, maxDepth, web)
  {
  }

  /** Removing a member leaves a smaller set. */
  lemma FewerJobs(m: set<Job>, j: Job)
    requires j in m
    ensures |m - {j}| < |m|
  {
    assert m == (m - {j}) + {j};
  }

  /** No queue of a non-positive cap runs anything. */
  lemma NothingRuns(queues: map<string, QueueState<Job>>, pending: map<string, multiset<Job>>, perHost: int)
    requires QueuesHold(queues, pending, perHost) && perHost <= 0
    ensures forall h :: h in queues ==> queues[h].running == multiset{}
  {
  }

  /** Some download task runs or some extracting task is submitted. */
  predicate Busy(s: CrawlState) {
    (exists h :: h in s.queues && s.queues[h].running != multiset{}) || s.extracting != {}
  }

  /** What every step of a crawl keeps: the bookkeeping is consistent and sound. */
  ghost predicate CrawlInvariant(s: CrawlState, perHost: int, hosts: map<string, string>, web: map<string, Document>,
                                 start: string, maxDepth: int) {
    CrawlValid(s, perHost, hosts, web) && CrawlSound(s, start, maxDepth, web)
  }

  /** The invariant gives the placement and the derivation of every processed url. */
  lemma InvariantSound(s: CrawlState, perHost: int, hosts: map<string, string>, web: map<string, Document>,
                       start: string, maxDepth: int)
    requires CrawlInvariant(s, perHost, hosts, web, start, maxDepth)
    ensures DepthsPlaced(s, start, maxDepth, web) && Derived(s.downloaded, s.depthOf, s.parentOf, start, maxDepth, web)
  {
  }

  /** The state of one download(url, depth) call, which process, the download tasks and the
      extracting tasks update. The call's url and depth are kept as ghost constants. */
  class Crawl {
    const perHost: int
    const hosts: map<string, string>
    const web: map<string, Document>
    ghost const start: string
    ghost const maxDepth: int
    var state: CrawlState

    ghost predicate Valid()
      reads this
    {
      CrawlInvariant(state, perHost, hosts, web, start, maxDepth)
    }

    constructor(perHost: int, hosts: map<string, string>, web: map<string, Document>, ghost start: string, ghost maxDepth: int)
      ensures Valid()
      ensures this.perHost == perHost && this.hosts == hosts && this.web == web
      ensures this.start == start && this.maxDepth == maxDepth
      ensures state == CrawlState({}, {}, map[], map[], {}, map[], map[], map[], map[])
    {
      this.perHost := perHost;
      this.hosts := hosts;
      this.web := web;
      this.start := start;
      this.maxDepth := maxDepth;
      state := CrawlState({}, {}, map[], map[], {}, map[], map[], map[], map[]);
    }

    /** getDownloadQueue(host): the host's queue, created empty on first use. */
    method GetDownloadQueue(h: string)
      requires Valid()
      modifies this
      ensures Valid()
      ensures state.queues == old(state.queues)[h := if h in old(state.queues) then old(state.queues)[h] else EmptyQueue()]
      ensures state.processed == old(state.processed) && state.downloaded == old(state.downloaded)
      ensures state.errors == old(state.errors) && state.inFlight == old(state.inFlight)
      ensures state.extracting == old(state.extracting) && state.depthOf == old(state.depthOf)
      ensures state.parentOf == old(state.parentOf)
    {
      if h in state.queues {
        OverwriteSame(state.queues, h);
      } else {
        var s := state;
        TrackedNewHost(s.inFlight, s.pending, h);
        DepthsAgreeNewHost(s.pending, s.depthOf, h);
        EmptyQueueValid<Job>(perHost);
        state := s.(queues := s.queues[h := EmptyQueue()], pending := s.pending[h := multiset{}]);
      }
    }

    /** process(url, depth): nothing at depth 0 or for a url already processed. Otherwise the url
        is processed at this depth: a malformed url is an error, and any other is submitted as a
        job to the queue of its host, which is created if the host has none. `from` is where the
        call comes from: download itself for the seed, at the call's depth, or the extracting task
        of a downloaded page for one of its links, one below the page's depth; a new url records it
        as its parent. */
    method Process(url: string, depth: int, ghost from: Option<string>)
      requires Valid()
      requires depth != 0 ==> Origin(state.downloaded, state.depthOf, start, maxDepth, web, url, depth, from)
      modifies this
      ensures Valid()
      ensures old(state.queues).Keys <= state.queues.Keys
      ensures state.downloaded == old(state.downloaded) && state.extracting == old(state.extracting)
      ensures depth == 0 || url in old(state.processed) ==> state == old(state)
      ensures depth != 0 && url !in old(state.processed) ==>
        && state.processed == old(state.processed) + {url}
        && state.depthOf == old(state.depthOf)[url := depth]
        && state.parentOf == (if from.Some? then old(state.parentOf)[url := from.value] else old(state.parentOf))
        && (url !in hosts ==>
              && state.errors == old(state.errors)[url := MalformedUrl]
              && state.queues == old(state.queues) && state.inFlight == old(state.inFlight))
        && (url in hosts ==>
              && state.errors == old(state.errors)
              && state.inFlight == old(state.inFlight)[url := hosts[url]]
              && state.queues == old(state.queues)[hosts[url] :=
                   Submit(if hosts[url] in old(state.queues) then old(state.queues)[hosts[url]] else EmptyQueue(),
                          perHost, Job(url, depth))])
    {
      if depth == 0 || url in state.processed {
        return;
      }
      if url !in hosts {
        var s := state;
        assert UrlOutcome(url, s.processed, s.downloaded, s.errors, s.inFlight, hosts, web);
        OutcomesMalformed(s.processed, s.downloaded, s.errors, s.inFlight, hosts, web, url);
        DepthsAgreeExtend(s.pending, s.depthOf, url, depth);
        var s' := s.(processed := s.processed + {url}, errors := s.errors[url := MalformedUrl],
                     depthOf := s.depthOf[url := depth],
                     parentOf := if from.Some? then s.parentOf[url := from.value] else s.parentOf);
        SoundProcessed(s, s', url, depth, from, start, maxDepth, web);
        state := s';
        return;
      }
      var h := hosts[url];
      ghost var before := state.queues;
      GetDownloadQueue(h);
      var s := state;
      OverwriteTwice(before, h, s.queues[h], Submit(s.queues[h], perHost, Job(url, depth)));
      var job := Job(url, depth);
      var q := Submit(s.queues[h], perHost, job);
      assert UrlOutcome(url, s.processed, s.downloaded, s.errors, s.inFlight, hosts, web);
      TrackedSubmit(s.inFlight, s.pending, h, job);
      SubmitValid(s.queues[h], perHost, job);
      SubmitPending(s.queues[h], perHost, job);
      QueuesHoldUpdate(s.queues, s.pending, perHost, h, q);
      OutcomesSubmit(s.processed, s.downloaded, s.errors, s.inFlight, hosts, web, url, h);
      DepthsAgreeSubmit(s.pending, s.depthOf, h, job);
      var s' := s.(processed := s.processed + {url}, queues := s.queues[h := q], inFlight := s.inFlight[url := h],
                   pending := s.pending[h := s.pending[h] + multiset{job}], depthOf := s.depthOf[url := depth],
                   parentOf := if from.Some? then s.parentOf[url := from.value] else s.parentOf);
      SoundProcessed(s, s', url, depth, from, start, maxDepth, web);
      state := s';
    }

    /** The download task of `job`, run by the downloading executor for the queue of host h: a
        downloaded url is recorded and the extracting task of its page is submitted; an
        IOException is recorded as an error. Either way the queue then runs its next task. */
    method CompleteDownload(h: string, job: Job)
      requires Valid() && h in state.queues && job in state.queues[h].running
      modifies this
      ensures Valid()
      ensures state.processed == old(state.processed) && state.depthOf == old(state.depthOf)
      ensures job.url in state.depthOf && state.depthOf[job.url] == job.depth
      ensures state.queues == old(state.queues)[h := Next(old(state.queues)[h], job)]
      ensures job.url in old(state.inFlight) && state.inFlight == old(state.inFlight) - {job.url}
      ensures job.url in web ==>
        && state.downloaded == old(state.downloaded) + {job.url} && state.errors == old(state.errors)
        && state.extracting == old(state.extracting) + {job}
      ensures job.url !in web ==>
        && state.downloaded == old(state.downloaded) && state.errors == old(state.errors)[job.url := DownloadFailed]
        && state.extracting == old(state.extracting)
    {
      FinishedValid(state, perHost, hosts, web, h, job);
      FinishedSound(state, perHost, hosts, web, start, maxDepth, h, job);
      state := Finished(state, h, job, web);
    }

    /** process(link, depth - 1) as the extracting task of the downloaded page `from` calls it for
        one of the page's links: a new link is processed at one below the page's depth with
        `from` as its parent, and any other call changes nothing. */
    method ProcessLink(link: string, depth: int, ghost from: string)
      requires Valid()
      requires from in state.downloaded && from in state.depthOf && depth == state.depthOf[from] - 1
      requires link in LinksOf(web, from)
      modifies this
      ensures Valid()
      ensures state.downloaded == old(state.downloaded) && state.extracting == old(state.extracting)
      ensures depth == 0 || link in old(state.processed) ==> state == old(state)
      ensures depth != 0 && link !in old(state.processed) ==>
        && state.processed == old(state.processed) + {link}
        && state.depthOf == old(state.depthOf)[link := depth]
        && state.parentOf == old(state.parentOf)[link := from]
    {
      assert depth != 0 ==> Origin(state.downloaded, state.depthOf, start, maxDepth, web, link, depth, Some(from));
      Process(link, depth, Some(from));
    }

    /** One iteration of ProcessLinks: `link` is processed, which extends the relation to the
        state before the task by that link. */
    method ProcessNext(link: string, ghost done: set<string>, depth: int, ghost from: string, ghost s0: CrawlState)
      requires Valid() && link in LinksOf(web, from)
      requires LinksStep(s0, state, done, depth, from)
      requires from in state.downloaded && from in state.depthOf && depth == state.depthOf[from] - 1
      modifies this
      ensures Valid()
      ensures LinksStep(s0, state, done + {link}, depth, from)
      ensures from in state.downloaded && from in state.depthOf && depth == state.depthOf[from] - 1
    {
      ghost var s1 := state;
      ProcessLink(link, depth, from);
      LinksStepNext(s0, s1, state, done, link, depth, from);
    }

    /** The body of an extracting task of the downloaded page `from`: every link processed, in
        order, at one below the page's depth. */
    method ProcessLinks(links: seq<string>, depth: int, ghost from: string)
      requires Valid()
      requires from in state.downloaded && from in state.depthOf && depth == state.depthOf[from] - 1
      requires forall v :: v in links ==> v in LinksOf(web, from)
      modifies this
      ensures Valid() && LinksStep(old(state), state, Elements(links), depth, from)
    {
      ghost var s0 := state;
      for i := 0 to |links|
        invariant Valid()
        invariant LinksStep(s0, state, Elements(links[..i]), depth, from)
        invariant from in state.downloaded && from in state.depthOf && depth == state.depthOf[from] - 1
      {
        ProcessNext(links[i], Elements(links[..i]), depth, from, s0);
        ElementsNext(links, i);
      }
      assert links[..|links|] == links;
    }

    /** The extracting task of `job`'s page, run by the extracting executor: extractLinks, then
        process on every link at one less than the page's depth; an IOException from extractLinks
        skips the page. The task then leaves the executor. */
    method RunExtraction(job: Job)
      requires Valid() && job in state.extracting
      modifies this
      ensures Valid()
      ensures state.extracting == old(state.extracting) - {job}
      ensures state.downloaded == old(state.downloaded)
      ensures old(state.processed) <= state.processed <= old(state.processed) + LinksOf(web, job.url)
      ensures job.depth != 1 ==> LinksOf(web, job.url) <= state.processed
      ensures DepthsKept(old(state.depthOf), state.depthOf)
      ensures forall v :: v in state.processed && v !in old(state.processed) ==>
        v in state.depthOf && state.depthOf[v] == job.depth - 1 && v in state.parentOf && state.parentOf[v] == job.url
      ensures state.processed == old(state.processed) ==> state.inFlight == old(state.inFlight)
    {
      assert UrlOutcome(job.url, state.processed, state.downloaded, state.errors, state.inFlight, hosts, web);
      var links := web[job.url].links;
      if links.Some? {
        ProcessLinks(links.value, job.depth - 1, job.url);
        assert Elements(links.value) == LinksOf(web, job.url);
      }
      ExtractedSound(state, start, maxDepth, web, job);
      state := state.(extracting := state.extracting - {job});
    }

    /** The extracting executor runs one submitted extracting task, whichever it picks. */
    method RunAnyExtraction()
      requires Valid() && state.extracting != {}
      modifies this
      ensures Valid() && old(state.processed) <= state.processed && state.downloaded == old(state.downloaded)
      ensures DepthsKept(old(state.depthOf), state.depthOf)
      ensures state.processed == old(state.processed) ==>
        state.inFlight == old(state.inFlight) && |state.extracting| < |old(state.extracting)|
    {
      var job :| job in state.extracting;
      ghost var s0 := state;
      RunExtraction(job);
      FewerJobs(s0.extracting, job);
    }

    /** The downloading executor of some host runs one of its running download tasks, whichever it
        picks. */
    method RunAnyDownload()
      requires Valid() && exists h :: h in state.queues && state.queues[h].running != multiset{}
      modifies this
      ensures Valid() && state.processed == old(state.processed) && old(state.downloaded) <= state.downloaded
      ensures state.depthOf == old(state.depthOf) && |state.inFlight.Keys| < |old(state.inFlight).Keys|
    {
      var h :| h in state.queues && state.queues[h].running != multiset{};
      SomeElement(state.queues[h].running);
      var job :| job in state.queues[h].running;
      ghost var s0 := state;
      CompleteDownload(h, job);
      FewerKeys(s0.inFlight, job.url);
    }

    /** The executors run one task, whichever they pick: a running download task of some host, or
        a submitted extracting task. Every processed url stays placed: a url processed with the
        remaining depth d is maxDepth - d link hops from the seed. Some url is processed for the
        first time, or none is and a url leaves flight, or none is, flight is as it was and an
        extracting task is done. */
    method RunSomeTask()
      requires Valid()
      requires Busy(state)
      modifies this
      ensures Valid() && old(state.processed) <= state.processed <= LinkTargets(start, web)
      ensures DepthsPlaced(state, start, maxDepth, web)
      ensures Derived(state.downloaded, state.depthOf, state.parentOf, start, maxDepth, web)
      ensures old(state.downloaded) <= state.downloaded && DepthsKept(old(state.depthOf), state.depthOf)
      ensures state.processed != old(state.processed) ==>
        |LinkTargets(start, web) - state.processed| < |LinkTargets(start, web) - old(state.processed)|
      ensures state.processed == old(state.processed) ==>
        || |state.inFlight.Keys| < |old(state.inFlight).Keys|
        || (state.inFlight == old(state.inFlight) && |state.extracting| < |old(state.extracting)|)
    {
      ghost var s0 := state;
      var extract: bool :| (extract && state.extracting != {}) ||
        (!extract && exists h :: h in state.queues && state.queues[h].running != multiset{});
      if extract {
        RunAnyExtraction();
      } else {
        RunAnyDownload();
      }
      InvariantSound(state, perHost, hosts, web, start, maxDepth);
      ProcessedTargets(state, start, maxDepth, web);
      TaskProgress(LinkTargets(start, web), s0, state);
    }

    /** The executors run tasks, whichever they pick, while any is left. Each task processes a new
        url out of the finitely many link targets, or else takes a url out of flight, or else
        finishes an extracting task, so the tasks run out. */
    method RunWhileBusy()
      requires Valid()
      modifies this
      ensures Valid() && Since(old(state), state) && !Busy(state)
      decreases |LinkTargets(start, web) - state.processed|, |state.inFlight.Keys|, |state.extracting|
    {
      if Busy(state) {
        ghost var s0 := state;
        RunSomeTask();
        RunWhileBusy();
        SinceTransitive(old(state), s0, state);
      }
    }

    /** Once no task is left under a positive perHost nothing is in flight; when nothing was
        submitted nothing runs. */
    method RunUntilIdle()
      requires Valid() && perHost > 0
      modifies this
      ensures Valid() && Since(old(state), state)
      ensures state.inFlight == map[] && state.extracting == {}
      ensures old(state.queues) == map[] && old(state.extracting) == {} ==> state == old(state)
    {
      if Busy(state) {
        RunWhileBusy();
      }
      IdleNothingInFlight(state.queues, state.pending, state.inFlight, perHost);
    }

    /** The Phaser's arriveAndAwaitAdvance: tasks run, in whatever order the executors pick them,
        until no download task runs and no extracting task is left. Then nothing is in flight, so
        every processed url is downloaded or an error, and the links of every downloaded page not
        processed at depth 1 are processed. Each task processes a new url, or takes a url out of
        flight, or finishes an extracting task, so the wait ends. A non-positive perHost dispatches
        nothing, so then the wait ends only when nothing was submitted. */
    method AwaitAll()
      requires Valid()
      requires perHost > 0 || (state.inFlight == map[] && state.extracting == {})
      modifies this
      ensures Valid() && old(state.processed) <= state.processed && DepthsKept(old(state.depthOf), state.depthOf)
      ensures state.inFlight == map[] && state.extracting == {}
      ensures forall u :: u in state.downloaded ==>
        u in state.depthOf && (state.depthOf[u] != 1 ==> LinksOf(web, u) <= state.processed)
      ensures Derived(state.downloaded, state.depthOf, state.parentOf, start, maxDepth, web)
      ensures old(state.queues) == map[] && old(state.extracting) == {} ==> state == old(state)
    {
      if perHost <= 0 {
        NothingRuns(state.queues, state.pending, perHost);
      } else {
        RunUntilIdle();
      }
      SettledLinks(state, perHost, hosts, web, start, maxDepth);
    }
  }

  /** Urls placed in a crawl from start are within maxDepth - 1 hops of it under a positive
      maxDepth, and reachable from it under a negative one. */
  lemma PlacedReach(depthOf: map<string, int>, web: map<string, Document>, start: string, maxDepth: int)
    requires forall u :: u in depthOf ==> Placed(web, start, maxDepth, u, depthOf[u])
    ensures maxDepth > 0 ==> forall u :: u in depthOf ==> u in Within(web, start, maxDepth - 1)
    ensures maxDepth < 0 ==> forall u :: u in depthOf ==> Reaches(web, start, u)
  {
    forall u | u in depthOf ensures maxDepth > 0 ==> u in Within(web, start, maxDepth - 1) {
      if maxDepth > 0 {
        HopsWithin(web, start, maxDepth - depthOf[u]);
        WithinMono(web, start, maxDepth - depthOf[u], maxDepth - 1);
      }
    }
    forall u | u in depthOf ensures maxDepth < 0 ==> Reaches(web, start, u) {
      if maxDepth < 0 {
        var k: nat := maxDepth - depthOf[u];
        HopsWithin(web, start, k);
        assert u in Within(web, start, k);
      }
    }
  }

  /** A task that processes a new url of the targets, or else takes a url out of flight, or else
      leaves flight as it was and finishes an extracting task, leaves fewer unvisited targets, or
      as many and fewer urls in flight, or as many of both and fewer extracting tasks. */
  lemma TaskProgress(targets: set<string>, s0: CrawlState, s1: CrawlState)
    requires s0.processed <= s1.processed <= targets
    requires s1.processed == s0.processed ==>
      || |s1.inFlight.Keys| < |s0.inFlight.Keys|
      || (s1.inFlight == s0.inFlight && |s1.extracting| < |s0.extracting|)
    ensures s1.processed != s0.processed ==> |targets - s1.processed| < |targets - s0.processed|
  {
    if s1.processed != s0.processed {
      FewerUnvisited(targets, s0.processed, s1.processed);
    }
  }

  /** The urls of a set, each once, in some order. */
  method SetToSeq(s: set<string>) returns (r: seq<string>)
    ensures forall x :: x in r <==> x in s
    ensures forall i, j :: 0 <= i < j < |r| ==> r[i] != r[j]
  {
    r := [];
    var rest := s;
    while rest != {}
      invariant rest <= s
      invariant forall x :: x in r <==> x in s - rest
      invariant forall i, j :: 0 <= i < j < |r| ==> r[i] != r[j]
      decreases |rest|
    {
      var x :| x in rest;
      assert x !in r;
      r := r + [x];
      rest := rest - {x};
    }
  }

  /** download(url, depth): process the url, let every task finish (the Phaser's
      arriveAndAwaitAdvance), then report the downloaded urls and the errors. `reachedAt` is the
      remaining depth each reported url was processed at: the url itself at `depth`, and a link
      of a page one less than the page, unless the link was reached before along another path. */
  method Download(url: string, depth: int, perHost: int, hosts: map<string, string>,
                  web: map<string, Document>) returns (r: CrawlResult, ghost reachedAt: map<string, int>)
    requires perHost > 0 || depth == 0 || url !in hosts
    ensures depth == 0 ==> r.downloaded == [] && r.errors == map[]
    ensures depth != 0 ==> url in r.downloaded || url in r.errors
    ensures forall u :: u in r.downloaded ==> u !in r.errors && u in web
    ensures forall i, j :: 0 <= i < j < |r.downloaded| ==> r.downloaded[i] != r.downloaded[j]
    ensures forall u :: u in r.errors ==> (r.errors[u] == MalformedUrl <==> u !in hosts)
    ensures forall u :: u in r.errors && r.errors[u] == DownloadFailed ==> u !in web
    ensures forall u :: u in reachedAt <==> u in r.downloaded || u in r.errors
    ensures depth != 0 ==> url in reachedAt && reachedAt[url] == depth
    ensures forall u :: u in reachedAt ==> Placed(web, url, depth, u, reachedAt[u])
    ensures forall u :: u in reachedAt && u != url ==>
      exists p :: p in r.downloaded && p in reachedAt && u in LinksOf(web, p) && reachedAt[u] == reachedAt[p] - 1
    ensures forall u, v :: u in r.downloaded && u in reachedAt && reachedAt[u] != 1 && v in LinksOf(web, u) ==>
      v in r.downloaded || v in r.errors
    ensures depth > 0 ==> forall u :: u in r.downloaded || u in r.errors ==> u in Within(web, url, depth - 1)
    ensures depth < 0 ==> forall u :: u in r.downloaded || u in r.errors ==> Reaches(web, url, u)
    ensures depth < 0 ==> forall u, v :: u in r.downloaded && v in LinksOf(web, u) ==> v in r.downloaded || v in r.errors
  {
    var crawl := new Crawl(perHost, hosts, web, url, depth);
    crawl.Process(url, depth, None);
    crawl.AwaitAll();
    var s := crawl.state;
    OutcomesSettled(s.processed, s.downloaded, s.errors, hosts, web);
    var downloaded := SetToSeq(s.downloaded);
    if downloaded != [] {
      assert downloaded[0] in s.downloaded;
    }
    r := CrawlResult(downloaded, s.errors);
    reachedAt := s.depthOf;
    PlacedReach(reachedAt, web, url, depth);
    forall u | u in reachedAt && u != url
      ensures exists p :: p in r.downloaded && p in reachedAt && u in LinksOf(web, p) && reachedAt[u] == reachedAt[p] - 1
    {
      var from := OriginOf(s.parentOf, u);
      assert Origin(s.downloaded, s.depthOf, url, depth, web, u, s.depthOf[u], from);
      assert from.Some?;
      assert from.value in r.downloaded;
    }
  }
}
