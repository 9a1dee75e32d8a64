/** The breadth-first crawl: every url of one level is processed before any url of the next, so
    each url is processed with the remaining depth of its shortest path from the seed, and the
    crawl reports exactly the urls within depth - 1 hops. */
module BreadthFirst {
  import opened Wrappers
  import opened WebCrawler
  import opened CrawlOrder

  /** The documents the crawl can download: those of the well-formed urls. */
  ghost function Fetchable(web: map<string, Document>, hosts: map<string, string>): map<string, Document> {
    map u | u in web && u in hosts :: web[u]
  }

  /** The links of the pages of a set of urls. */
  ghost function LinksFrom(web: map<string, Document>, us: set<string>): set<string> {
    set u, v | u in us && v in LinksOf(web, u) :: v
  }

  /** What a breadth-first crawl has reported after k levels: nothing before the first, and the
      urls within k - 1 hops after k of them. */
  ghost function Reported(web: map<string, Document>, start: string, k: nat): set<string> {
    if k == 0 then {} else Within(web, start, k - 1)
  }

  /** One more level follows the links of the urls first reached at the last level: the earlier
      ones' links are already within reach. */
  lemma LevelStep(web: map<string, Document>, start: string, k: nat, seen: set<string>, frontier: set<string>)
    requires seen == Within(web, start, k) && frontier == seen - Reported(web, start, k)
    ensures seen + (LinksFrom(web, frontier) - seen) == Within(web, start, k + 1)
    ensures LinksFrom(web, frontier) - seen == Within(web, start, k + 1) - Reported(web, start, k + 1)
  {
    var old' := Reported(web, start, k);
    assert seen == frontier + old';
    forall v | v in LinksFrom(web, old')
      ensures v in seen
    {
      var u :| u in old' && v in LinksOf(web, u);
      WithinStep(web, start, k - 1, u, v);
    }
    assert LinksFrom(web, seen) == LinksFrom(web, frontier) + LinksFrom(web, old');
  }

  /** Once a level reaches nothing new, no later level does. */
  lemma {:induction false} WithinStable(web: map<string, Document>, start: string, k: nat, j: nat)
    requires Within(web, start, k + 1) == Within(web, start, k) && k <= j
    ensures Within(web, start, j) == Within(web, start, k)
    decreases j
  {
    if j > k {
      WithinStable(web, start, k, j - 1);
    }
  }

  /** Reaching a fixed point of the levels reaches everything reachable. */
  lemma StableReaches(web: map<string, Document>, start: string, k: nat, u: string)
    requires Within(web, start, k + 1) == Within(web, start, k)
    ensures Reaches(web, start, u) <==> u in Within(web, start, k)
  {
    if Reaches(web, start, u) {
      var j: nat :| u in Within(web, start, j);
      if j <= k {
        WithinMono(web, start, j, k);
      } else {
        WithinStable(web, start, k, j);
      }
    }
  }

  /** The links the crawl follows from the urls of one level: those of its well-formed urls whose
      pages download and whose links extract. */
  lemma FetchableLinks(web: map<string, Document>, hosts: map<string, string>, frontier: set<string>,
                       fetched: set<string>)
    requires fetched == set u | u in frontier && u in web && u in hosts
    ensures LinksFrom(Fetchable(web, hosts), frontier) ==
            set u, v | u in fetched && web[u].links.Some? && v in web[u].links.value :: v
  {
    var W := Fetchable(web, hosts);
    var found := set u, v | u in fetched && web[u].links.Some? && v in web[u].links.value :: v;
    forall v | v in LinksFrom(W, frontier)
      ensures v in found
    {
      var u :| u in frontier && v in LinksOf(W, u);
      assert u in W && W[u] == web[u];
    }
    forall v | v in found
      ensures v in LinksFrom(W, frontier)
    {
      var u :| u in fetched && web[u].links.Some? && v in web[u].links.value;
      assert u in W && W[u] == web[u];
      assert v in LinksOf(W, u);
    }
  }

  /** One level of the breadth-first crawl: its well-formed urls whose pages download are
      fetched, each other url fails as malformed or as not downloaded, and the next level is the
      links of the fetched pages not seen yet. */
  method CrawlLevel(frontier: set<string>, seen: set<string>, hosts: map<string, string>, web: map<string, Document>)
    returns (fetched: set<string>, failed: map<string, CrawlError>, next: set<string>)
    ensures fetched <= frontier && forall u :: u in fetched <==> u in frontier && u in web && u in hosts
    ensures forall u :: u in failed <==> u in frontier && u !in fetched
    ensures forall u :: u in failed ==> (failed[u] == MalformedUrl <==> u !in hosts)
    ensures forall u :: u in failed && failed[u] == DownloadFailed ==> u !in web
    ensures next == LinksFrom(Fetchable(web, hosts), frontier) - seen
  {
    fetched := set u | u in frontier && u in web && u in hosts;
    failed := map u | u in frontier && u !in fetched :: if u !in hosts then MalformedUrl else DownloadFailed;
    next := (set u, v | u in fetched && web[u].links.Some? && v in web[u].links.value :: v) - seen;
    FetchableLinks(web, hosts, frontier, fetched);
  }

  /** A level that reaches nothing new is a fixed point of the levels. */
  lemma NothingNew(web: map<string, Document>, start: string, j: nat)
    requires Within(web, start, j + 1) - Within(web, start, j) == {}
    ensures Within(web, start, j + 1) == Within(web, start, j)
  {
    forall u | u in Within(web, start, j + 1)
      ensures u in Within(web, start, j)
    {
      assert u !in Within(web, start, j + 1) - Within(web, start, j);
    }
    WithinMono(web, start, j, j + 1);
  }

  /** Where the levels stop: after depth of them, or earlier at a level that reaches nothing new,
      the urls reported are those within depth - 1 hops, or for a negative depth those
      reachable. */
  lemma LevelsEnd(web: map<string, Document>, start: string, depth: int, k: nat, frontier: set<string>)
    requires depth >= 0 ==> k <= depth
    requires frontier == Within(web, start, k) - Reported(web, start, k)
    requires frontier == {} || (depth >= 0 && k == depth)
    ensures depth == 0 ==> Reported(web, start, k) == {}
    ensures depth > 0 ==> Reported(web, start, k) == Within(web, start, depth - 1)
    ensures depth < 0 ==> forall u :: u in Reported(web, start, k) <==> Reaches(web, start, u)
  {
    if k == 0 {
      assert start in Within(web, start, k) && Reported(web, start, k) == {};
      assert start in frontier;
    }
    if frontier == {} && !(depth >= 0 && k == depth) {
      var j: nat := k - 1;
      NothingNew(web, start, j);
      if depth > 0 {
        WithinStable(web, start, j, depth - 1);
      }
      forall u
        ensures depth < 0 ==> (u in Reported(web, start, k) <==> Reaches(web, start, u))
      {
        StableReaches(web, start, j, u);
      }
    }
  }

  /** The reported urls are exactly those downloaded or failed, and the outcomes are sound. */
  ghost predicate Outcome(reported: set<string>, downloaded: set<string>, errors: map<string, CrawlError>,
                          hosts: map<string, string>, web: map<string, Document>)
  {
    && (forall u :: u in downloaded || u in errors <==> u in reported)
    && Crawled(downloaded, errors, hosts, web)
  }

  /** A downloaded url is well formed, downloads and has not failed, and an error names its
      cause. */
  ghost predicate Crawled(downloaded: set<string>, errors: map<string, CrawlError>,
                          hosts: map<string, string>, web: map<string, Document>)
  {
    && (forall u :: u in downloaded ==> u !in errors && u in web && u in hosts)
    && (forall u :: u in errors ==> (errors[u] == MalformedUrl <==> u !in hosts))
    && (forall u :: u in errors && errors[u] == DownloadFailed ==> u !in web)
  }

  /** Reporting a level not reported yet: its fetched urls join the downloaded ones and its
      failures the errors. */
  lemma OutcomeNext(reported: set<string>, downloaded: set<string>, errors: map<string, CrawlError>,
                    hosts: map<string, string>, web: map<string, Document>,
                    frontier: set<string>, fetched: set<string>, failed: map<string, CrawlError>)
    requires Outcome(reported, downloaded, errors, hosts, web) && reported !! frontier
    requires forall u :: u in fetched <==> u in frontier && u in web && u in hosts
    requires forall u :: u in failed <==> u in frontier && u !in fetched
    requires forall u :: u in failed ==> (failed[u] == MalformedUrl <==> u !in hosts)
    requires forall u :: u in failed && failed[u] == DownloadFailed ==> u !in web
    ensures Outcome(reported + frontier, downloaded + fetched, errors + failed, hosts, web)
  {
  }

  /** What holds after k levels of the breadth-first crawl over the documents W: `seen` is
      everything within k hops, `reported` everything within k - 1 (the urls downloaded or
      failed), and the next level to crawl is the rest of `seen`. */
  ghost predicate Levels(W: map<string, Document>, url: string, depth: int, k: nat,
                         seen: set<string>, frontier: set<string>, reported: set<string>)
  {
    && (depth >= 0 ==> k <= depth)
    && seen == Within(W, url, k) && seen <= LinkTargets(url, W)
    && reported == Reported(W, url, k) && frontier == seen - reported
  }

  /** A set splits into a part of it and the disjoint rest. */
  lemma SplitOff(seen: set<string>, reported: set<string>, frontier: set<string>)
    requires reported <= seen && frontier == seen - reported
    ensures seen == reported + frontier && reported !! frontier
  {
  }

  /** Crawling one more level keeps Levels, and leaves fewer link targets unseen or, when it finds
      nothing new, an empty next level. */
  lemma LevelsNext(W: map<string, Document>, url: string, depth: int, k: nat,
                   seen: set<string>, frontier: set<string>, reported: set<string>, next: set<string>)
    requires Levels(W, url, depth, k, seen, frontier, reported)
    requires depth < 0 || k < depth
    requires next == LinksFrom(W, frontier) - seen
    ensures Levels(W, url, depth, k + 1, seen + next, next, seen)
    ensures seen == reported + frontier && reported !! frontier
    ensures next != {} ==> |LinkTargets(url, W) - (seen + next)| < |LinkTargets(url, W) - seen|
  {
    LevelStep(W, url, k, seen, frontier);
    WithinTargets(W, url, k + 1);
    assert reported <= seen by {
      if k > 0 {
        WithinMono(W, url, k - 1, k);
      }
    }
    SplitOff(seen, reported, frontier);
    assert seen == Reported(W, url, k + 1);
    if next != {} {
      FewerUnvisited(LinkTargets(url, W), seen, seen + next);
    }
  }

  /** The state of the breadth-first crawl after k levels over the pages it can download. */
  ghost predicate LevelState(url: string, depth: int, hosts: map<string, string>, web: map<string, Document>, k: nat,
                             seen: set<string>, frontier: set<string>, reported: set<string>,
                             downloaded: set<string>, errors: map<string, CrawlError>)
  {
    Levels(Fetchable(web, hosts), url, depth, k, seen, frontier, reported) && Outcome(reported, downloaded, errors, hosts, web)
  }

  /** Crawls the next level: the state moves on by one level, and a level that finds something
      new leaves fewer link targets unseen. */
  method StepLevel(url: string, depth: int, k: nat, seen: set<string>, frontier: set<string>, ghost reported: set<string>,
                   downloaded: set<string>, errors: map<string, CrawlError>,
                   hosts: map<string, string>, web: map<string, Document>)
    returns (downloaded': set<string>, errors': map<string, CrawlError>, next: set<string>)
    requires depth < 0 || k < depth
    requires LevelState(url, depth, hosts, web, k, seen, frontier, reported, downloaded, errors)
    ensures LevelState(url, depth, hosts, web, k + 1, seen + next, next, seen, downloaded', errors')
    ensures next != {} ==> |LinkTargets(url, Fetchable(web, hosts)) - (seen + next)| < |LinkTargets(url, Fetchable(web, hosts)) - seen|
  {
    var fetched, failed;
    fetched, failed, next := CrawlLevel(frontier, seen, hosts, web);
    LevelsNext(Fetchable(web, hosts), url, depth, k, seen, frontier, reported, next);
    OutcomeNext(reported, downloaded, errors, hosts, web, frontier, fetched, failed);
    downloaded' := downloaded + fetched;
    errors' := errors + failed;
  }

  /** The crawl starts with the seed as its only level. */
  lemma LevelsStart(url: string, depth: int, hosts: map<string, string>, web: map<string, Document>)
    ensures LevelState(url, depth, hosts, web, 0, {url}, {url}, {}, {}, map[])
  {
    WithinTargets(Fetchable(web, hosts), url, 0);
  }

  /** When the levels stop, the downloaded and failed urls are those within depth - 1 hops, or
      for a negative depth those reachable, and none for depth 0. */
  lemma LevelsDone(url: string, depth: int, hosts: map<string, string>, web: map<string, Document>, k: nat,
                   seen: set<string>, frontier: set<string>, reported: set<string>,
                   downloaded: set<string>, errors: map<string, CrawlError>)
    requires LevelState(url, depth, hosts, web, k, seen, frontier, reported, downloaded, errors)
    requires frontier == {} || (depth >= 0 && k == depth)
    ensures depth == 0 ==> downloaded == {} && errors == map[]
    ensures depth > 0 ==> forall u :: u in downloaded || u in errors <==> u in Within(Fetchable(web, hosts), url, depth - 1)
    ensures depth < 0 ==> forall u :: u in downloaded || u in errors <==> Reaches(Fetchable(web, hosts), url, u)
    ensures Crawled(downloaded, errors, hosts, web)
  {
    LevelsEnd(Fetchable(web, hosts), url, depth, k, frontier);
    if depth == 0 {
      assert errors.Keys == {};
    }
  }

  /** The levels of the breadth-first crawl from level k on, up to the level where it stops:
      every url of one level is processed before any of the next, so each is processed with the
      remaining depth of its shortest path. A level's well-formed urls are downloaded or fail, its
      other urls are malformed, and the next level is the new links of its downloaded pages. */
  method CrawlFrom(url: string, depth: int, hosts: map<string, string>, web: map<string, Document>, k: nat,
                   seen: set<string>, frontier: set<string>, ghost reported: set<string>,
                   downloaded: set<string>, errors: map<string, CrawlError>)
    returns (downloaded': set<string>, errors': map<string, CrawlError>,
             ghost k': nat, ghost seen': set<string>, ghost frontier': set<string>, ghost reported': set<string>)
    requires LevelState(url, depth, hosts, web, k, seen, frontier, reported, downloaded, errors)
    ensures frontier' == {} || (depth >= 0 && k' == depth)
    ensures LevelState(url, depth, hosts, web, k', seen', frontier', reported', downloaded', errors')
    decreases |LinkTargets(url, Fetchable(web, hosts)) - seen|
  {
    if frontier == {} || (depth >= 0 && k >= depth) {
      downloaded', errors', k', seen', frontier', reported' := downloaded, errors, k, seen, frontier, reported;
    } else {
      var d, e, next := StepLevel(url, depth, k, seen, frontier, reported, downloaded, errors, hosts, web);
      if next == {} {
        downloaded', errors', k', seen', frontier', reported' := d, e, k + 1, seen + next, next, seen;
      } else {
        downloaded', errors', k', seen', frontier', reported' := CrawlFrom(url, depth, hosts, web, k + 1, seen + next, next, seen, d, e);
      }
    }
  }

  /** The breadth-first crawl as a download result: it reports exactly the urls within depth - 1
      hops of the seed over the pages it can download, and for a negative depth every url
      reachable from the seed, each downloaded url once. */
  method DownloadBreadthFirst(url: string, depth: int, hosts: map<string, string>, web: map<string, Document>)
    returns (r: CrawlResult)
    ensures depth == 0 ==> r.downloaded == [] && r.errors == map[]
    ensures depth > 0 ==> forall u :: u in r.downloaded || u in r.errors <==> u in Within(Fetchable(web, hosts), url, depth - 1)
    ensures depth < 0 ==> forall u :: u in r.downloaded || u in r.errors <==> Reaches(Fetchable(web, hosts), url, u)
    ensures forall u :: u in r.downloaded ==> u !in r.errors && u in web && u in hosts
    ensures forall i, j :: 0 <= i < j < |r.downloaded| ==> r.downloaded[i] != r.downloaded[j]
    ensures forall u :: u in r.errors ==> (r.errors[u] == MalformedUrl <==> u !in hosts)
    ensures forall u :: u in r.errors && r.errors[u] == DownloadFailed ==> u !in web
  {
    LevelsStart(url, depth, hosts, web);
    var downloaded, errors, k, seen, frontier, reported := CrawlFrom(url, depth, hosts, web, 0, {url}, {url}, {}, {}, map[]);
    LevelsDone(url, depth, hosts, web, k, seen, frontier, reported, downloaded, errors);
    var list := SetToSeq(downloaded);
    if list != [] {
      assert list[0] in downloaded;
    }
    r := CrawlResult(list, errors);
  }

  /** On the web where the schedule of LosesDeepLink loses F, the breadth-first crawl from A at
      depth 4 downloads F, three hops from A. */
  method ReportsDeepLink() returns (r: CrawlResult)
    ensures "F" in r.downloaded && "F" !in r.errors
  {
    var web := Diamond("A", "B", "C", "D", "E", "F");
    var hosts := SelfHosts("A", "B", "C", "D", "E", "F");
    r := DownloadBreadthFirst("A", 4, hosts, web);
    DiamondFacts("A", "B", "C", "D", "E", "F");
    assert Fetchable(web, hosts) == web;
    WithinStep(web, "A", 0, "A", "B");
    WithinStep(web, "A", 1, "B", "D");
    WithinStep(web, "A", 2, "D", "F");
    assert "F" in hosts && "F" in web;
  }
}
