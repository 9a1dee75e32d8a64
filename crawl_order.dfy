/** How far a crawl goes depends on the order its tasks run in. process adds a url to `processed`
    the first time any task reaches it and keeps the remaining depth of that task, so a page first
    reached along a long path is processed with little depth left, and its links are not followed
    as far as a shorter path to it would allow. This module exhibits one such schedule of the
    crawl's own transitions; BreadthFirst defines the crawl that reports exactly the urls within
    depth - 1 hops of the seed. Where a url has one path from the seed, every order follows it:
    the contract of download alone carries a chain through to its end. */
module CrawlOrder {
  import opened Wrappers
  import opened WebCrawler

  /** Six distinct urls. */
  predicate Distinct6(a: string, b: string, c: string, d: string, e: string, f: string) {
    && a != b && a != c && a != d && a != e && a != f && b != c && b != d && b != e && b != f
    && c != d && c != e && c != f && d != e && d != f && e != f
  }

  /** A web where d is two hops from a through b and three through c and e, and f is one hop
      past d; every page downloads and its links extract. */
  function Diamond(a: string, b: string, c: string, d: string, e: string, f: string): map<string, Document> {
    map[a := Document(Some([b, c])), b := Document(Some([d])), c := Document(Some([e])),
        e := Document(Some([d])), d := Document(Some([f])), f := Document(Some([]))]
  }

  /** Every url of the web is well formed and is its own host. */
  function SelfHosts(a: string, b: string, c: string, d: string, e: string, f: string): map<string, string> {
    map[a := a, b := b, c := c, d := d, e := e, f := f]
  }

  /** The urls, hosts and links of the diamond. */
  lemma DiamondFacts(a: string, b: string, c: string, d: string, e: string, f: string)
    requires Distinct6(a, b, c, d, e, f)
    ensures Diamond(a, b, c, d, e, f).Keys == SelfHosts(a, b, c, d, e, f).Keys == {a, b, c, d, e, f}
    ensures forall w :: w in SelfHosts(a, b, c, d, e, f) ==> SelfHosts(a, b, c, d, e, f)[w] == w
    ensures LinksOf(Diamond(a, b, c, d, e, f), a) == {b, c} && LinksOf(Diamond(a, b, c, d, e, f), b) == {d}
    ensures LinksOf(Diamond(a, b, c, d, e, f), c) == {e} && LinksOf(Diamond(a, b, c, d, e, f), e) == {d}
    ensures LinksOf(Diamond(a, b, c, d, e, f), d) == {f}
  {
    var w := Diamond(a, b, c, d, e, f);
    assert w[a].links.value == [b, c];
  }

  /** A url in flight has its job pending in the queue of its host, and when every url is its
      own host no other url's job is pending there. */
  lemma OwnJobsPending(processed: set<string>, downloaded: set<string>, errors: map<string, CrawlError>,
                       inFlight: map<string, string>, pending: map<string, multiset<Job>>,
                       hosts: map<string, string>, web: map<string, Document>, u: string)
    requires Outcomes(processed, downloaded, errors, inFlight, hosts, web) && Tracked(inFlight, pending)
    requires forall w :: w in hosts ==> hosts[w] == w
    requires u in inFlight
    ensures u in pending && HasJobFor(pending[u], u) && UniqueUrls(pending[u])
    ensures forall x :: x in pending[u] ==> x.url == u
  {
    assert UrlOutcome(u, processed, downloaded, errors, inFlight, hosts, web);
    forall x | x in pending[u]
      ensures x.url == u
    {
      assert UrlOutcome(x.url, processed, downloaded, errors, inFlight, hosts, web);
    }
  }

  /** Jobs of one url, none of them twice, are that url's one job. */
  lemma OneJob(m: multiset<Job>, j: Job)
    requires UniqueUrls(m) && j in m && forall x :: x in m ==> x.url == j.url
    ensures m == multiset{j}
  {
    forall x
      ensures m[x] == multiset{j}[x]
    {
      if x in m {
        assert x == j;
      }
    }
  }

  /** With a cap of 1 and a single pending task, that task is running. */
  lemma SingleRuns(q: QueueState<Job>, j: Job)
    requires QueueValid(q, 1) && QueuePending(q) == multiset{j}
    ensures q.running == multiset{j}
  {
    assert |q.running| + |q.taskQueue| == 1;
  }

  /** Under a perHost of 1, a url in flight whose host serves no other url has its download task
      running: the url's job is the only one pending for the host, so it is not waiting. */
  lemma SoleJobRuns(s: CrawlState, hosts: map<string, string>, web: map<string, Document>, u: string)
    requires CrawlValid(s, 1, hosts, web) && DepthsAgree(s.pending, s.depthOf)
    requires forall w :: w in hosts ==> hosts[w] == w
    requires u in s.inFlight
    ensures u in s.queues && u in s.depthOf && s.queues[u].running == multiset{Job(u, s.depthOf[u])}
  {
    OwnJobsPending(s.processed, s.downloaded, s.errors, s.inFlight, s.pending, hosts, web, u);
    var j :| j in s.pending[u] && j.url == u;
    OneJob(s.pending[u], j);
    SingleRuns(s.queues[u], j);
  }

  /** The download task of u and then its extracting task, run back to back under a perHost of 1
      where every url is its own host: u is downloaded, and its links are processed at one below
      the depth u was processed at, except those processed before. */
  method RunPage(crawl: Crawl, u: string)
    requires crawl.Valid() && crawl.perHost == 1 && (forall w :: w in crawl.hosts ==> crawl.hosts[w] == w)
    requires u in crawl.hosts && u in crawl.web && u in crawl.state.processed && u !in crawl.state.downloaded
    modifies crawl
    ensures crawl.Valid() && u in old(crawl.state.depthOf)
    ensures crawl.state.downloaded == old(crawl.state.downloaded) + {u}
    ensures crawl.state.extracting == old(crawl.state.extracting)
    ensures old(crawl.state.processed) <= crawl.state.processed <= old(crawl.state.processed) + LinksOf(crawl.web, u)
    ensures old(crawl.state.depthOf)[u] != 1 ==> LinksOf(crawl.web, u) <= crawl.state.processed
    ensures DepthsKept(old(crawl.state.depthOf), crawl.state.depthOf)
    ensures forall v :: v in crawl.state.processed && v !in old(crawl.state.processed) ==>
      v in crawl.state.depthOf && crawl.state.depthOf[v] == old(crawl.state.depthOf)[u] - 1
  {
    var s := crawl.state;
    assert UrlOutcome(u, s.processed, s.downloaded, s.errors, s.inFlight, crawl.hosts, crawl.web);
    SoleJobRuns(s, crawl.hosts, crawl.web, u);
    var job :| job in s.queues[u].running;
    assert job == Job(u, s.depthOf[u]) && job !in s.extracting;
    crawl.CompleteDownload(u, job);
    crawl.RunExtraction(job);
    AddRemove(s.extracting, job);
  }

  /** Adding an absent job and taking it out again leaves the set as it was. */
  lemma AddRemove(e: set<Job>, job: Job)
    requires job !in e
    ensures (e + {job}) - {job} == e
  {
  }

  /** Every url a crawl to a positive depth has processed has a positive remaining depth. */
  lemma ProcessedPositive(crawl: Crawl)
    requires crawl.Valid() && crawl.maxDepth > 0
    ensures forall v :: v in crawl.state.processed ==> v in crawl.state.depthOf && crawl.state.depthOf[v] > 0
  {
    InvariantSound(crawl.state, crawl.perHost, crawl.hosts, crawl.web, crawl.start, crawl.maxDepth);
  }

  /** RunPage on a crawl to a positive depth whose tasks are all done: u's links are processed
      unless u was processed at depth 1, and then (at depth 0) none is. `known` holds depths the
      caller knows; they are kept, and every new link has one less than u's. */
  method Visit(crawl: Crawl, u: string, ghost processed: set<string>, ghost downloaded: set<string>,
               ghost known: map<string, int>)
    requires crawl.Valid() && crawl.perHost == 1 && (forall w :: w in crawl.hosts ==> crawl.hosts[w] == w)
    requires crawl.maxDepth > 0 && u in crawl.hosts && u in crawl.web && u in known && u !in downloaded
    requires crawl.state.processed == processed && crawl.state.downloaded == downloaded && crawl.state.extracting == {}
    requires forall v :: v in known ==> v in crawl.state.depthOf && crawl.state.depthOf[v] == known[v]
    requires u in processed
    modifies crawl
    ensures crawl.Valid()
    ensures crawl.state.processed == processed + (if known[u] != 1 then LinksOf(crawl.web, u) else {})
    ensures crawl.state.downloaded == downloaded + {u} && crawl.state.extracting == {}
    ensures forall v :: v in known ==> v in crawl.state.depthOf && crawl.state.depthOf[v] == known[v]
    ensures forall v :: v in crawl.state.processed && v !in processed ==>
      v in crawl.state.depthOf && crawl.state.depthOf[v] == known[u] - 1
  {
    RunPage(crawl, u);
    ProcessedPositive(crawl);
  }

  /** A crawl of the diamond from a to the depth 4 with one download per host, no task left but
      the download tasks of the urls processed and not downloaded, and the depths of `known`. */
  ghost predicate DiamondAt(crawl: Crawl, a: string, b: string, c: string, d: string, e: string, f: string,
                            processed: set<string>, downloaded: set<string>, known: map<string, int>)
    reads crawl
  {
    && Distinct6(a, b, c, d, e, f) && crawl.Valid() && crawl.perHost == 1
    && crawl.hosts == SelfHosts(a, b, c, d, e, f) && crawl.web == Diamond(a, b, c, d, e, f)
    && crawl.start == a && crawl.maxDepth == 4
    && crawl.state.processed == processed && crawl.state.downloaded == downloaded && crawl.state.extracting == {}
    && forall v :: v in known ==> v in crawl.state.depthOf && crawl.state.depthOf[v] == known[v]
  }

  /** The crawl of the diamond from a at the depth 4, after download has processed the seed: a
      is the only url processed, at depth 4, and nothing is downloaded or extracting yet. */
  method StartDiamond(a: string, b: string, c: string, d: string, e: string, f: string) returns (crawl: Crawl)
    ensures fresh(crawl) && crawl.Valid() && crawl.perHost == 1
    ensures crawl.hosts == SelfHosts(a, b, c, d, e, f) && crawl.web == Diamond(a, b, c, d, e, f)
    ensures crawl.start == a && crawl.maxDepth == 4
    ensures crawl.state.processed == {a} && crawl.state.downloaded == {} && crawl.state.extracting == {}
    ensures crawl.state.depthOf == map[a := 4]
  {
    crawl := new Crawl(1, SelfHosts(a, b, c, d, e, f), Diamond(a, b, c, d, e, f), a, 4);
    crawl.Process(a, 4, None);
  }

  /** The started crawl is the diamond crawl with a known at depth 4. */
  lemma DiamondStarted(crawl: Crawl, a: string, b: string, c: string, d: string, e: string, f: string)
    requires Distinct6(a, b, c, d, e, f) && crawl.Valid() && crawl.perHost == 1
    requires crawl.hosts == SelfHosts(a, b, c, d, e, f) && crawl.web == Diamond(a, b, c, d, e, f)
    requires crawl.start == a && crawl.maxDepth == 4
    requires crawl.state.processed == {a} && crawl.state.downloaded == {} && crawl.state.extracting == {}
    requires crawl.state.depthOf == map[a := 4]
    ensures DiamondAt(crawl, a, b, c, d, e, f, {a}, {}, map[a := 4])
  {
  }

  /** What downloading and extracting u's page does to the sets of a crawl of the diamond: u is
      downloaded, and unless it was processed at depth 1 its links are processed, the new ones
      one below u's depth. */
  ghost predicate PageStep(a: string, b: string, c: string, d: string, e: string, f: string, u: string,
                           processed: set<string>, downloaded: set<string>, known: map<string, int>,
                           processed': set<string>, downloaded': set<string>, known': map<string, int>)
  {
    && u in {a, b, c, d, e, f} && u in processed && u in known && u !in downloaded
    && processed' == processed + (if known[u] != 1 then LinksOf(Diamond(a, b, c, d, e, f), u) else {})
    && downloaded' == downloaded + {u}
    && forall v :: v in known' ==>
         (v in known && known'[v] == known[v]) || (v in processed' - processed && known'[v] == known[u] - 1)
  }

  /** The five steps of the schedule, in the order a, c, e, b, d. */
  lemma DiamondSteps(a: string, b: string, c: string, d: string, e: string, f: string)
    requires Distinct6(a, b, c, d, e, f)
    ensures PageStep(a, b, c, d, e, f, a, {a}, {}, map[a := 4], {a, b, c}, {a}, map[b := 3, c := 3])
    ensures PageStep(a, b, c, d, e, f, c, {a, b, c}, {a}, map[b := 3, c := 3], {a, b, c, e}, {a, c}, map[b := 3, e := 2])
    ensures PageStep(a, b, c, d, e, f, e, {a, b, c, e}, {a, c}, map[b := 3, e := 2],
                     {a, b, c, d, e}, {a, c, e}, map[b := 3, d := 1])
    ensures PageStep(a, b, c, d, e, f, b, {a, b, c, d, e}, {a, c, e}, map[b := 3, d := 1],
                     {a, b, c, d, e}, {a, b, c, e}, map[d := 1])
    ensures PageStep(a, b, c, d, e, f, d, {a, b, c, d, e}, {a, b, c, e}, map[d := 1],
                     {a, b, c, d, e}, {a, b, c, d, e}, map[d := 1])
  {
    DiamondFacts(a, b, c, d, e, f);
  }

  /** One page of the diamond downloaded and extracted: Visit with the sets it leaves. */
  method VisitDiamond(crawl: Crawl, a: string, b: string, c: string, d: string, e: string, f: string, u: string,
                      ghost processed: set<string>, ghost downloaded: set<string>, ghost known: map<string, int>,
                      ghost processed': set<string>, ghost downloaded': set<string>, ghost known': map<string, int>)
    requires DiamondAt(crawl, a, b, c, d, e, f, processed, downloaded, known)
    requires PageStep(a, b, c, d, e, f, u, processed, downloaded, known, processed', downloaded', known')
    modifies crawl
    ensures DiamondAt(crawl, a, b, c, d, e, f, processed', downloaded', known')
  {
    DiamondFacts(a, b, c, d, e, f);
    Visit(crawl, u, processed, downloaded, known);
  }

  /** A schedule of download(a, 4) over the diamond with one download per host: the tasks of a,
      c and e run before the one of b, so d is first reached three hops from a and processed with
      a remaining depth of 1. Its links would be processed at depth 0, so f is never processed,
      although it is three hops from a along a, b, d. At the end no task is left, so this is what
      download reports: a, b, c, d and e, and not f. */
  method LosesDeepLinkOn(a: string, b: string, c: string, d: string, e: string, f: string) returns (crawl: Crawl)
    requires Distinct6(a, b, c, d, e, f)
    ensures crawl.Valid() && crawl.web == Diamond(a, b, c, d, e, f) && crawl.start == a && crawl.maxDepth == 4
    ensures crawl.hosts == SelfHosts(a, b, c, d, e, f) && crawl.perHost == 1
    ensures !Busy(crawl.state) && crawl.state.inFlight == map[]
    ensures crawl.state.downloaded == {a, b, c, d, e} && crawl.state.errors == map[]
    ensures f !in crawl.state.processed && f in Within(Diamond(a, b, c, d, e, f), a, 3)
  {
    crawl := StartDiamond(a, b, c, d, e, f);
    DiamondStarted(crawl, a, b, c, d, e, f);
    SchedulePages(crawl, a, b, c, d, e, f);
    DiamondFacts(a, b, c, d, e, f);
    Settled(crawl.state, crawl.hosts, crawl.web);
    WithinStep(crawl.web, a, 0, a, b);
    WithinStep(crawl.web, a, 1, b, d);
    WithinStep(crawl.web, a, 2, d, f);
  }

  /** The pages in the order a, c, e, b, d. */
  method SchedulePages(crawl: Crawl, a: string, b: string, c: string, d: string, e: string, f: string)
    requires DiamondAt(crawl, a, b, c, d, e, f, {a}, {}, map[a := 4])
    modifies crawl
    ensures DiamondAt(crawl, a, b, c, d, e, f, {a, b, c, d, e}, {a, b, c, d, e}, map[d := 1])
  {
    DiamondSteps(a, b, c, d, e, f);
    VisitDiamond(crawl, a, b, c, d, e, f, a, {a}, {}, map[a := 4], {a, b, c}, {a}, map[b := 3, c := 3]);
    VisitDiamond(crawl, a, b, c, d, e, f, c, {a, b, c}, {a}, map[b := 3, c := 3], {a, b, c, e}, {a, c}, map[b := 3, e := 2]);
    VisitDiamond(crawl, a, b, c, d, e, f, e, {a, b, c, e}, {a, c}, map[b := 3, e := 2],
                 {a, b, c, d, e}, {a, c, e}, map[b := 3, d := 1]);
    VisitDiamond(crawl, a, b, c, d, e, f, b, {a, b, c, d, e}, {a, c, e}, map[b := 3, d := 1],
                 {a, b, c, d, e}, {a, b, c, e}, map[d := 1]);
    VisitDiamond(crawl, a, b, c, d, e, f, d, {a, b, c, d, e}, {a, b, c, e}, map[d := 1],
                 {a, b, c, d, e}, {a, b, c, d, e}, map[d := 1]);
  }

  /** The schedule on the urls A to F. */
  method LosesDeepLink() returns (crawl: Crawl)
    ensures crawl.Valid() && crawl.web == Diamond("A", "B", "C", "D", "E", "F") && crawl.start == "A"
    ensures crawl.hosts == SelfHosts("A", "B", "C", "D", "E", "F") && crawl.perHost == 1
    ensures crawl.maxDepth == 4 && !Busy(crawl.state)
    ensures crawl.state.downloaded == {"A", "B", "C", "D", "E"} && crawl.state.errors == map[]
    ensures "F" !in crawl.state.processed && "F" in Within(crawl.web, "A", 3)
  {
    crawl := LosesDeepLinkOn("A", "B", "C", "D", "E", "F");
  }

  /** A crawl whose every processed url of the hosts and the web is downloaded has nothing in
      flight and nothing failed; with no extracting task left it is not busy. */
  lemma Settled(s: CrawlState, hosts: map<string, string>, web: map<string, Document>)
    requires CrawlValid(s, 1, hosts, web) && s.processed == s.downloaded && s.extracting == {}
    requires forall u :: u in s.processed ==> u in hosts && u in web
    ensures s.inFlight == map[] && s.errors == map[] && !Busy(s)
  {
    forall u
      ensures u !in s.inFlight && u !in s.errors
    {
      assert UrlOutcome(u, s.processed, s.downloaded, s.errors, s.inFlight, hosts, web);
    }
    assert s.inFlight.Keys == {} && s.errors.Keys == {};
    forall h | h in s.queues
      ensures s.queues[h].running == multiset{}
    {
      var q := s.queues[h];
      assert forall j :: j in s.pending[h] ==> j.url in s.inFlight;
      assert s.pending[h] == multiset{};
      assert |q.running| + |q.taskQueue| == |s.pending[h]| == 0;
    }
  }

  /** The chain a, b, c: a links to b and b to c. */
  function Chain(): map<string, Document> {
    map["a" := Document(Some(["b"])), "b" := Document(Some(["c"])), "c" := Document(Some([]))]
  }

  /** All three urls of the chain on the one host h. */
  function OneHost(): map<string, string> {
    map["a" := "h", "b" := "h", "c" := "h"]
  }

  /** The urls and links of the chain. */
  lemma ChainFacts()
    ensures Chain().Keys == OneHost().Keys == {"a", "b", "c"}
    ensures LinksOf(Chain(), "a") == {"b"} && LinksOf(Chain(), "b") == {"c"} && LinksOf(Chain(), "c") == {}
  {
    assert Chain()["a"].links.value == ["b"];
  }

  /** A well-formed url of the chain is no error of a result whose errors name their cause. */
  lemma NoError(errors: map<string, CrawlError>, u: string)
    requires forall u :: u in errors ==> (errors[u] == MalformedUrl <==> u !in OneHost())
    requires forall u :: u in errors && errors[u] == DownloadFailed ==> u !in Chain()
    requires u in OneHost() && u in Chain()
    ensures u !in errors
  {
  }

  /** What download("a", 3) promises over the chain forces the whole chain into the result: a is
      downloaded at depth 3; b, linked only from a, has a as its parent and so the depth 2; and
      c, a link of b, is reported too. Every url of the chain downloads, so none is an error. */
  lemma ChainReported(r: CrawlResult, reachedAt: map<string, int>)
    requires "a" in r.downloaded || "a" in r.errors
    requires forall u :: u in r.errors ==> (r.errors[u] == MalformedUrl <==> u !in OneHost())
    requires forall u :: u in r.errors && r.errors[u] == DownloadFailed ==> u !in Chain()
    requires forall u :: u in reachedAt <==> u in r.downloaded || u in r.errors
    requires "a" in reachedAt && reachedAt["a"] == 3
    requires forall u :: u in reachedAt && u != "a" ==>
      exists p :: p in r.downloaded && p in reachedAt && u in LinksOf(Chain(), p) && reachedAt[u] == reachedAt[p] - 1
    requires forall u, v :: u in r.downloaded && u in reachedAt && reachedAt[u] != 1 && v in LinksOf(Chain(), u) ==>
      v in r.downloaded || v in r.errors
    ensures "a" in r.downloaded && "b" in r.downloaded && "c" in r.downloaded
  {
    ChainFacts();
    NoError(r.errors, "a");
    NoError(r.errors, "b");
    NoError(r.errors, "c");
    assert "b" in LinksOf(Chain(), "a");
    var p :| p in r.downloaded && p in reachedAt && "b" in LinksOf(Chain(), p) && reachedAt["b"] == reachedAt[p] - 1;
    assert p == "a";
    assert "c" in LinksOf(Chain(), "b");
  }

  /** In every order, download("a", 3) over the chain on one host follows the chain to its end. */
  method FollowsChain() returns (r: CrawlResult)
    ensures "a" in r.downloaded && "b" in r.downloaded && "c" in r.downloaded
  {
    ghost var reachedAt;
    r, reachedAt := Download("a", 3, 1, OneHost(), Chain());
    ChainReported(r, reachedAt);
  }
}
