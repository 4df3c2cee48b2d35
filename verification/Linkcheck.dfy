/** The link checker misc/linkcheck: a work list fed by goroutines and closed by a
    WaitGroup. */
module Linkcheck {
  import opened Common

  type Text = seq<Byte>

  const HASH: Byte := 35  // #
  const RELEASE: Text := [47, 100, 101, 118, 101, 108, 47, 114, 101, 108, 101, 97, 115, 101]  // /devel/release

  // ----- the web -----

  /** What fetching a page comes to; links and ids as the regular expressions find them. */
  datatype Response = Failed | Redirect(location: Text) | Status | Page(links: seq<Text>, ids: seq<Text>)

  datatype Web = Web(root: Text, fetch: Text -> Response)

  /** The URLs doCrawl passes to crawl, in order (lines 132-163). */
  function Targets(w: Web, url: Text): seq<Text> {
    match w.fetch(url)
    case Redirect(location) => if w.root <= location then [location] else []
    case Page(links, _) => Prefixed(w.root, links)
    case _ => []
  }

  function Prefixed(root: Text, links: seq<Text>): seq<Text> {
    if links == [] then [] else [root + links[0]] + Prefixed(root, links[1..])
  }

  /** The fragments the page at url defines (lines 164-169). */
  function Ids(w: Web, url: Text): set<(Text, Text)> {
    if w.fetch(url).Page? then set id | id in w.fetch(url).ids :: (url, id) else {}
  }

  /** Line 79 */
  predicate Contains(s: Text, part: Text) { exists i :: 0 <= i <= |s| && part <= s[i..] }

  predicate Skipped(url: Text) { Contains(url, RELEASE) }

  /** Lines 84-92: the page and the fragment of a URL. */
  function PageOf(url: Text): Text {
    var i := IndexByte(url, HASH);
    if i >= 0 then url[..i] else url
  }

  function FragOf(url: Text): Text {
    var i := IndexByte(url, HASH);
    if i >= 0 then url[i + 1..] else []
  }

  // ----- the program -----

  /** The goroutine of crawlLoop: waiting on urlq, or inside doCrawl with links left. */
  datatype Crawler = Waiting | Busy(url: Text, left: seq<Text>)

  /** main: before line 177, in wg.Wait, and behind it. */
  datatype Main = Start | Wait | Checking

  /** waiting are the goroutines started on line 99 that have not sent yet. fetched is
      history: the URLs doCrawl was called with, in order. */
  datatype State = State(
    crawled: set<Text>, needed: set<(Text, Text)>, exist: set<(Text, Text)>, wg: int,
    waiting: multiset<Text>, crawler: Crawler, main: Main, fetched: seq<Text>)

  /** crawl(root); a send on urlq received; the next link of the page; the end of doCrawl;
      the return of Wait. */
  datatype Step = Begin | Receive(url: Text) | Follow | Finish | Return

  predicate Enabled(s: State, a: Step) {
    match a
    case Begin => s.main.Start?
    case Receive(url) => s.crawler.Waiting? && url in s.waiting
    case Follow => s.crawler.Busy? && s.crawler.left != []
    case Finish => s.crawler.Busy? && s.crawler.left == []
    case Return => s.main.Wait? && s.wg == 0
  }

  /** Line 78: crawl, which runs under the lock. */
  function Crawl(s: State, url: Text): State {
    if Skipped(url) then s
    else
      var page, frag := PageOf(url), FragOf(url);
      var s1 := if frag != [] then s.(needed := s.needed + {(page, frag)}) else s;
      if page in s.crawled then s1
      else s1.(crawled := s.crawled + {page}, wg := s.wg + 1, waiting := s.waiting + multiset{page})
  }

  function Apply(w: Web, s: State, a: Step): State
    requires Enabled(s, a)
  {
    match a
    case Begin => Crawl(s, w.root).(main := Wait)
    case Receive(url) =>
      s.(waiting := s.waiting - multiset{url}, crawler := Busy(url, Targets(w, url)), fetched := s.fetched + [url])
    case Follow => Crawl(s, s.crawler.left[0]).(crawler := Busy(s.crawler.url, s.crawler.left[1..]))
    case Finish => s.(exist := s.exist + Ids(w, s.crawler.url), wg := s.wg - 1, crawler := Waiting)
    case Return => s.(main := Checking)
  }

  const INIT: State := State({}, {}, {}, 0, multiset{}, Waiting, Start, [])

  // ----- what should be crawled -----

  /** The page at url links, in order, to these pages. */
  predicate LinksTo(w: Web, from: Text, to: Text) {
    exists i :: 0 <= i < |Targets(w, from)| && !Skipped(Targets(w, from)[i]) && PageOf(Targets(w, from)[i]) == to
  }

  /** A chain of links from the root. */
  ghost predicate Chain(w: Web, path: seq<Text>) {
    && path != [] && !Skipped(w.root) && path[0] == PageOf(w.root)
    && forall i | 0 <= i < |path| - 1 :: LinksTo(w, path[i], path[i + 1])
  }

  ghost predicate Reachable(w: Web, url: Text) { exists path: seq<Text> :: Chain(w, path) && path[|path| - 1] == url }

  lemma ReachableLink(w: Web, from: Text, to: Text)
    requires Reachable(w, from) && LinksTo(w, from, to)
    ensures Reachable(w, to)
  {
    var path: seq<Text> :| Chain(w, path) && path[|path| - 1] == from;
    var longer := path + [to];
    assert Chain(w, longer) && longer[|longer| - 1] == to;
  }

  lemma ReachableRoot(w: Web)
    requires !Skipped(w.root)
    ensures Reachable(w, PageOf(w.root))
  {
    var path := [PageOf(w.root)];
    assert Chain(w, path) && path[|path| - 1] == PageOf(w.root);
  }

  // ----- the invariant -----

  /** A link has been dealt with. */
  predicate Noted(s: State, url: Text) {
    !Skipped(url) ==> PageOf(url) in s.crawled && (FragOf(url) != [] ==> (PageOf(url), FragOf(url)) in s.needed)
  }

  /** Where the crawler is in the page: the links before are noted. */
  predicate Followed(w: Web, s: State, url: Text, upTo: nat) {
    forall i | 0 <= i < upTo && i < |Targets(w, url)| :: Noted(s, Targets(w, url)[i])
  }

  function Pending(s: State): int { |s.waiting| + if s.crawler.Busy? then 1 else 0 }

  /** Every page is crawled, and fetched, once: it is waiting, or was fetched. */
  ghost predicate Counted(s: State) {
    && s.wg == Pending(s)
    && Distinct(s.fetched)
    && (forall u :: u in s.crawled <==> u in s.waiting || u in s.fetched)
    && (forall u | u in s.waiting :: s.waiting[u] == 1 && u !in s.fetched)
  }

  /** Finished pages are noted completely, the current one as far as the crawler is. */
  ghost predicate Complete(w: Web, s: State) {
    && (s.main.Start? <==> s == INIT)
    && (!s.main.Start? ==> Noted(s, w.root))
    && (s.crawler.Busy? ==>
          && s.fetched != [] && s.crawler.url == s.fetched[|s.fetched| - 1]
          && |s.crawler.left| <= |Targets(w, s.crawler.url)|
          && s.crawler.left == Targets(w, s.crawler.url)[|Targets(w, s.crawler.url)| - |s.crawler.left|..]
          && Followed(w, s, s.crawler.url, |Targets(w, s.crawler.url)| - |s.crawler.left|))
    && (forall i | 0 <= i < Finished(s) :: Followed(w, s, s.fetched[i], |Targets(w, s.fetched[i])|))
  }

  /** Pages doCrawl has returned from. */
  function Finished(s: State): int { |s.fetched| - if s.crawler.Busy? then 1 else 0 }

  /** A fragment somebody asks for: the root itself or a reachable page does. */
  ghost predicate Asked(w: Web, f: (Text, Text)) {
    || (!Skipped(w.root) && FragOf(w.root) != [] && f == (PageOf(w.root), FragOf(w.root)))
    || exists u, i :: Reachable(w, u) && Asks(w, u, i, f)
  }

  predicate Asks(w: Web, u: Text, i: int, f: (Text, Text)) {
    0 <= i < |Targets(w, u)| && !Skipped(Targets(w, u)[i]) && FragOf(Targets(w, u)[i]) != []
    && f == (PageOf(Targets(w, u)[i]), FragOf(Targets(w, u)[i]))
  }

  /** Nothing is crawled or noted without a reason. */
  ghost predicate Justified(w: Web, s: State) {
    && (forall u | u in s.crawled :: Reachable(w, u))
    && (forall f | f in s.needed :: Asked(w, f))
    && (forall f :: f in s.exist <==> exists i :: 0 <= i < Finished(s) && f in Ids(w, s.fetched[i]))
  }

  ghost predicate Inv(w: Web, s: State) { Counted(s) && Complete(w, s) && Justified(w, s) }

  lemma InitInv(w: Web)
    ensures Inv(w, INIT)
  {
  }

  // ----- steps -----

  /** Marks are never taken back. */
  predicate Later(s: State, s': State) { s.crawled <= s'.crawled && s.needed <= s'.needed }

  lemma FollowedLater(w: Web, s: State, s': State, url: Text, upTo: nat)
    requires Later(s, s') && Followed(w, s, url, upTo)
    ensures Followed(w, s', url, upTo)
  {
  }

  /** crawl notes its URL, adds its page at most once, and adds nothing without a reason. */
  lemma CrawlNotes(w: Web, s: State, url: Text)
    requires Counted(s)
    requires !Skipped(url) ==> Reachable(w, PageOf(url)) && (FragOf(url) != [] ==> Asked(w, (PageOf(url), FragOf(url))))
    requires (forall u | u in s.crawled :: Reachable(w, u)) && forall f | f in s.needed :: Asked(w, f)
    ensures var s' := Crawl(s, url);
      && Counted(s') && Later(s, s') && Noted(s', url)
      && s'.fetched == s.fetched && s'.crawler == s.crawler && s'.exist == s.exist && s'.main == s.main
      && (forall u | u in s'.crawled :: Reachable(w, u)) && forall f | f in s'.needed :: Asked(w, f)
  {
    hide Skipped, PageOf, FragOf, Reachable, Asked;
  }

  lemma BeginStep(w: Web, s: State)
    requires Inv(w, s) && Enabled(s, Begin)
    ensures Inv(w, Apply(w, s, Begin))
  {
    hide Skipped, PageOf, FragOf, Reachable, Asked, Targets, Ids;
    if !Skipped(w.root) {
      ReachableRoot(w);
      RootAsked(w);
    }
    CrawlNotes(w, s, w.root);
  }

  lemma RootAsked(w: Web)
    requires !Skipped(w.root)
    ensures FragOf(w.root) != [] ==> Asked(w, (PageOf(w.root), FragOf(w.root)))
  {
  }

  /** A goroutine hands its URL to the crawler, which fetches the page. */
  lemma ReceiveStep(w: Web, s: State, url: Text)
    requires Inv(w, s) && Enabled(s, Receive(url))
    ensures Inv(w, Apply(w, s, Receive(url)))
  {
    hide Skipped, PageOf, FragOf, Reachable, Asked, Targets, Ids, Noted;
    var s' := Apply(w, s, Receive(url));
    assert s'.fetched[..|s.fetched|] == s.fetched;
    assert Finished(s') == Finished(s) == |s.fetched|;
    ReceiveCounted(w, s, url);
    RootLater(w, s, s');
    var ts := Targets(w, url);
    assert ts[|ts| - |ts|..] == ts;
    forall i | 0 <= i < Finished(s')
      ensures Followed(w, s', s'.fetched[i], |Targets(w, s'.fetched[i])|)
    {
      assert s'.fetched[i] == s.fetched[i];
      SameNotes(w, s, s', s.fetched[i], |Targets(w, s.fetched[i])|);
    }
    forall f
      ensures f in s'.exist <==> exists i :: 0 <= i < Finished(s') && f in Ids(w, s'.fetched[i])
    {
      SameIds(w, s, s', f);
    }
  }

  lemma SameNotes(w: Web, s: State, s': State, url: Text, upTo: nat)
    requires s'.crawled == s.crawled && s'.needed == s.needed && Followed(w, s, url, upTo)
    ensures Followed(w, s', url, upTo)
  {
    FollowedLater(w, s, s', url, upTo);
  }

  lemma SameIds(w: Web, s: State, s': State, f: (Text, Text))
    requires Finished(s') == Finished(s) && s'.exist == s.exist
    requires forall i | 0 <= i < Finished(s) :: i < |s.fetched| && i < |s'.fetched| && s'.fetched[i] == s.fetched[i]
    requires f in s.exist <==> exists i :: 0 <= i < Finished(s) && f in Ids(w, s.fetched[i])
    ensures f in s'.exist <==> exists i :: 0 <= i < Finished(s') && f in Ids(w, s'.fetched[i])
  {
    hide Ids;
    if f in s.exist {
      var i :| 0 <= i < Finished(s) && f in Ids(w, s.fetched[i]);
      assert f in Ids(w, s'.fetched[i]);
    }
  }

  lemma ReceiveCounted(w: Web, s: State, url: Text)
    requires Counted(s) && Enabled(s, Receive(url))
    ensures Counted(Apply(w, s, Receive(url)))
  {
    hide Targets;
    var s' := Apply(w, s, Receive(url));
    assert |s'.waiting| == |s.waiting| - 1;
    forall u
      ensures u in s'.waiting <==> u in s.waiting && u != url
    {
      assert s'.waiting[u] == if u == url then 0 else s.waiting[u];
    }
  }

  /** The next link of the page. */
  lemma FollowStep(w: Web, s: State)
    requires Inv(w, s) && Enabled(s, Follow)
    ensures Inv(w, Apply(w, s, Follow))
  {
    hide Skipped, PageOf, FragOf, Reachable, Asked, Targets, Ids, Noted;
    var url, left := s.crawler.url, s.crawler.left;
    var ts := Targets(w, url);
    var at := |ts| - |left|;
    assert left[0] == ts[at] && left[1..] == ts[at + 1..];
    assert s.fetched[|s.fetched| - 1] in s.crawled;
    LinkReasons(w, url, at);
    var c := Crawl(s, left[0]);
    CrawlNotes(w, s, left[0]);
    var s' := Apply(w, s, Follow);
    assert Counted(s') && Later(s, s') by { CountedSame(c, s'); }
    SameNoted(c, s', left[0]);
    FollowedLater(w, s, s', url, at);
    assert Followed(w, s', url, at + 1);
    RootLater(w, s, s');
    forall i | 0 <= i < Finished(s')
      ensures Followed(w, s', s'.fetched[i], |Targets(w, s'.fetched[i])|)
    {
      FollowedLater(w, s, s', s.fetched[i], |Targets(w, s.fetched[i])|);
    }
    forall f
      ensures f in s'.exist <==> exists i :: 0 <= i < Finished(s') && f in Ids(w, s'.fetched[i])
    {
      SameIds(w, s, s', f);
    }
  }

  lemma CountedSame(c: State, s: State)
    requires Counted(c) && c.crawler.Busy? && s == c.(crawler := s.crawler) && s.crawler.Busy?
    ensures Counted(s)
  {
  }

  lemma SameNoted(c: State, s: State, url: Text)
    requires Noted(c, url) && s.crawled == c.crawled && s.needed == c.needed
    ensures Noted(s, url)
  {
  }

  lemma RootLater(w: Web, s: State, s': State)
    requires Later(s, s')
    ensures Noted(s, w.root) ==> Noted(s', w.root)
  {
  }

  /** A link on a page worth crawling is worth crawling. */
  lemma LinkReasons(w: Web, from: Text, i: nat)
    requires i < |Targets(w, from)| && Reachable(w, from)
    ensures var url := Targets(w, from)[i];
      !Skipped(url) ==> Reachable(w, PageOf(url)) && (FragOf(url) != [] ==> Asked(w, (PageOf(url), FragOf(url))))
  {
    hide Skipped, PageOf, FragOf, Reachable, Targets;
    var url := Targets(w, from)[i];
    if !Skipped(url) {
      assert LinksTo(w, from, PageOf(url));
      ReachableLink(w, from, PageOf(url));
      if FragOf(url) != [] { assert Asks(w, from, i, (PageOf(url), FragOf(url))); }
    }
  }

  /** doCrawl returns. */
  lemma FinishStep(w: Web, s: State)
    requires Inv(w, s) && Enabled(s, Finish)
    ensures Inv(w, Apply(w, s, Finish))
  {
    hide Skipped, PageOf, FragOf, Reachable, Asked, Targets, Ids, Noted;
    var s' := Apply(w, s, Finish);
    var last := |s.fetched| - 1;
    forall i | 0 <= i < Finished(s')
      ensures Followed(w, s', s'.fetched[i], |Targets(w, s'.fetched[i])|)
    {
      SameNotes(w, s, s', s.fetched[i], |Targets(w, s.fetched[i])|);
    }
    RootLater(w, s, s');
    forall f
      ensures f in s'.exist <==> exists i :: 0 <= i < Finished(s') && f in Ids(w, s'.fetched[i])
    {
      if f in s.exist {
        var i :| 0 <= i < Finished(s) && f in Ids(w, s.fetched[i]);
        assert f in Ids(w, s'.fetched[i]);
      } else if f in Ids(w, s.crawler.url) {
        assert f in Ids(w, s'.fetched[last]);
      }
    }
  }

  lemma ReturnStep(w: Web, s: State)
    requires Inv(w, s) && Enabled(s, Return)
    ensures Inv(w, Apply(w, s, Return))
  {
    hide Skipped, PageOf, FragOf, Reachable, Asked, Targets, Ids, Noted;
    var s' := Apply(w, s, Return);
    RootLater(w, s, s');
    forall i | 0 <= i < Finished(s')
      ensures Followed(w, s', s'.fetched[i], |Targets(w, s'.fetched[i])|)
    {
      SameNotes(w, s, s', s.fetched[i], |Targets(w, s.fetched[i])|);
    }
    forall f
      ensures f in s'.exist <==> exists i :: 0 <= i < Finished(s') && f in Ids(w, s'.fetched[i])
    {
      SameIds(w, s, s', f);
    }
  }

  /** Every step keeps the invariant. */
  lemma StepInv(w: Web, s: State, a: Step)
    requires Inv(w, s) && Enabled(s, a)
    ensures Inv(w, Apply(w, s, a))
  {
    hide Inv, Apply, Enabled;
    match a
    case Begin => BeginStep(w, s);
    case Receive(url) => ReceiveStep(w, s, url);
    case Follow => FollowStep(w, s);
    case Finish => FinishStep(w, s);
    case Return => ReturnStep(w, s);
  }

  // ----- runs -----

  predicate Runs(w: Web, s: State, steps: seq<Step>)
    decreases steps
  {
    steps == [] || (Enabled(s, steps[0]) && Runs(w, Apply(w, s, steps[0]), steps[1..]))
  }

  function Run(w: Web, s: State, steps: seq<Step>): State
    requires Runs(w, s, steps)
    decreases steps
  {
    if steps == [] then s else Run(w, Apply(w, s, steps[0]), steps[1..])
  }

  lemma {:induction false} RunInv(w: Web, s: State, steps: seq<Step>)
    requires Inv(w, s) && Runs(w, s, steps)
    ensures Inv(w, Run(w, s, steps))
    decreases steps
  {
    hide Inv, Apply, Enabled;
    if steps != [] {
      StepInv(w, s, steps[0]);
      RunInv(w, Apply(w, s, steps[0]), steps[1..]);
    }
  }

  /** When main has come past wg.Wait (line 179), whatever the interleaving: no goroutine is
      left waiting, and the pages fetched are exactly the reachable ones, each once. */
  lemma CrawledIsReachable(w: Web, steps: seq<Step>)
    requires Runs(w, INIT, steps) && Run(w, INIT, steps).main.Wait? && Run(w, INIT, steps).wg == 0
    ensures var s := Run(w, INIT, steps);
      && s.waiting == multiset{} && s.crawler.Waiting?
      && Distinct(s.fetched) && forall u :: (u in s.crawled <==> Reachable(w, u)) && (u in s.fetched <==> Reachable(w, u))
  {
    hide Reachable, Justified;
    InitInv(w);
    RunInv(w, INIT, steps);
    AllFetched(w, Run(w, INIT, steps));
  }

  lemma AllFetched(w: Web, s: State)
    requires Inv(w, s) && s.main.Wait? && s.wg == 0
    ensures s.waiting == multiset{} && s.crawler.Waiting?
    ensures Distinct(s.fetched) && forall u :: (u in s.crawled <==> Reachable(w, u)) && (u in s.fetched <==> Reachable(w, u))
  {
    hide Reachable, Asked, Skipped, Ids, Noted, Followed;
    assert |s.waiting| == 0;
    forall u
      ensures u in s.crawled <==> u in s.fetched
    {
    }
    forall u | Reachable(w, u)
      ensures u in s.crawled
    {
      ReachedByChain(w, s, u);
    }
  }

  /** Closed under links: a page that was fetched has all its links crawled. */
  lemma ClosedUnderLinks(w: Web, s: State, from: Text, to: Text)
    requires Complete(w, s) && s.crawler.Waiting? && from in s.fetched && LinksTo(w, from, to)
    ensures to in s.crawled
  {
    hide Skipped, PageOf, FragOf, Targets;
    var k :| 0 <= k < |s.fetched| && s.fetched[k] == from;
    var i :| 0 <= i < |Targets(w, from)| && !Skipped(Targets(w, from)[i]) && PageOf(Targets(w, from)[i]) == to;
    assert Noted(s, Targets(w, from)[i]);
  }

  lemma ReachedByChain(w: Web, s: State, u: Text)
    requires Inv(w, s) && s.main.Wait? && s.crawler.Waiting? && s.waiting == multiset{} && Reachable(w, u)
    ensures u in s.crawled
  {
    hide Skipped, PageOf, FragOf, Targets, Asked, Ids, Followed;
    var path: seq<Text> :| Chain(w, path) && path[|path| - 1] == u;
    ChainCrawled(w, s, path, |path| - 1);
  }

  lemma {:induction false} ChainCrawled(w: Web, s: State, path: seq<Text>, k: nat)
    requires Inv(w, s) && s.main.Wait? && s.crawler.Waiting? && s.waiting == multiset{} && Chain(w, path) && k < |path|
    ensures path[k] in s.crawled
    decreases k
  {
    hide Skipped, PageOf, FragOf, LinksTo, Asked, Ids, Followed, Justified;
    if k > 0 {
      ChainCrawled(w, s, path, k - 1);
      assert LinksTo(w, path[k - 1], path[k]);
      ClosedUnderLinks(w, s, path[k - 1], path[k]);
    }
  }

  /** Lines 181-184: the fragments reported as missing are exactly those that the root or a
      reachable page asks for and no reachable page defines. */
  lemma MissingFragments(w: Web, steps: seq<Step>, f: (Text, Text))
    requires Runs(w, INIT, steps) && Run(w, INIT, steps).main.Wait? && Run(w, INIT, steps).wg == 0
    ensures var s := Run(w, INIT, steps);
      f in s.needed && f !in s.exist <==> Asked(w, f) && !exists u :: Reachable(w, u) && f in Ids(w, u)
  {
    hide Reachable, Asked, Inv;
    InitInv(w);
    RunInv(w, INIT, steps);
    var s := Run(w, INIT, steps);
    assert Inv(w, s);
    NeededIff(w, s, f);
    ExistIff(w, s, f);
  }

  lemma NeededIff(w: Web, s: State, f: (Text, Text))
    requires Inv(w, s) && s.main.Wait? && s.wg == 0
    ensures f in s.needed <==> Asked(w, f)
  {
    hide Reachable, Skipped, PageOf, FragOf, Ids, Targets;
    AllFetched(w, s);
    if Asked(w, f) {
      if u, i :| Reachable(w, u) && Asks(w, u, i, f) {
        var k :| 0 <= k < |s.fetched| && s.fetched[k] == u;
        assert Noted(s, Targets(w, u)[i]);
      }
    }
  }

  lemma ExistIff(w: Web, s: State, f: (Text, Text))
    requires Inv(w, s) && s.main.Wait? && s.wg == 0
    ensures f in s.exist <==> exists u :: Reachable(w, u) && f in Ids(w, u)
  {
    hide Reachable, Asked, Skipped, Ids, Noted, Followed;
    AllFetched(w, s);
    if f in s.exist {
      var i :| 0 <= i < Finished(s) && f in Ids(w, s.fetched[i]);
      assert s.fetched[i] in s.fetched;
    }
    if u :| Reachable(w, u) && f in Ids(w, u) {
      var k :| 0 <= k < |s.fetched| && s.fetched[k] == u;
    }
  }

  /** wg.Add is called while the counter is positive, or before anybody waits. */
  lemma AddSafe(w: Web, steps: seq<Step>)
    requires Runs(w, INIT, steps) && Run(w, INIT, steps).crawler.Busy?
    ensures Run(w, INIT, steps).wg >= 1
  {
    hide Complete, Justified;
    InitInv(w);
    RunInv(w, INIT, steps);
  }

  /** Until main is past Wait, something can happen. */
  lemma NoDeadlock(w: Web, steps: seq<Step>) returns (a: Step)
    requires Runs(w, INIT, steps) && !Run(w, INIT, steps).main.Checking?
    ensures Enabled(Run(w, INIT, steps), a)
  {
    hide Complete, Justified;
    InitInv(w);
    RunInv(w, INIT, steps);
    var s := Run(w, INIT, steps);
    if s.main.Start? {
      a := Begin;
    } else if s.crawler.Busy? {
      a := if s.crawler.left == [] then Finish else Follow;
    } else if url :| url in s.waiting {
      a := Receive(url);
    } else {
      assert |s.waiting| == 0;
      a := Return;
    }
  }

  /** Links left on the page being crawled. */
  function Left(s: State): nat { if s.crawler.Busy? then 1 + |s.crawler.left| else 0 }

  /** The steps spent on the given pages: to receive each, to follow its links, and to
      return. */
  function Work(w: Web, urls: seq<Text>): nat {
    if urls == [] then 0 else Work(w, urls[..|urls| - 1]) + |Targets(w, urls[|urls| - 1])| + 2
  }

  /** Steps of main itself. */
  function Stage(m: Main): nat {
    match m
    case Start => 0
    case Wait => 1
    case Checking => 2
  }

  /** A run has exactly the steps its fetched pages call for, up to what is left of the
      current one. */
  lemma {:induction false} StepCount(w: Web, s: State, steps: seq<Step>)
    requires Runs(w, s, steps)
    ensures var s' := Run(w, s, steps);
      |steps| == Work(w, s'.fetched) - Left(s') + Stage(s'.main) - (Work(w, s.fetched) - Left(s) + Stage(s.main))
    decreases steps
  {
    hide Apply, Enabled, Left, Work, Stage;
    if steps != [] {
      OneStep(w, s, steps[0]);
      StepCount(w, Apply(w, s, steps[0]), steps[1..]);
    }
  }

  lemma OneStep(w: Web, s: State, a: Step)
    requires Enabled(s, a)
    ensures var s' := Apply(w, s, a);
      Work(w, s'.fetched) - Left(s') + Stage(s'.main) == Work(w, s.fetched) - Left(s) + Stage(s.main) + 1
  {
    hide Skipped, PageOf, FragOf, Targets;
    var s' := Apply(w, s, a);
    if a.Receive? {
      assert s'.fetched[..|s.fetched|] == s.fetched;
    }
  }

  /** Over a finite set of pages the program stops: no run is longer than this. With
      NoDeadlock every run that is continued for as long as it can be ends past Wait. */
  lemma Stops(w: Web, steps: seq<Step>, pages: set<Text>, links: nat)
    requires Runs(w, INIT, steps)
    requires forall u | Reachable(w, u) :: u in pages && |Targets(w, u)| <= links
    ensures |steps| <= 2 + |pages| * (links + 2)
  {
    hide Reachable, Targets, Complete;
    StepCount(w, INIT, steps);
    InitInv(w);
    RunInv(w, INIT, steps);
    var s := Run(w, INIT, steps);
    DistinctWork(w, s.fetched, pages, links);
  }

  lemma {:induction false} DistinctWork(w: Web, urls: seq<Text>, pages: set<Text>, links: nat)
    requires Distinct(urls) && forall u | u in urls :: u in pages && |Targets(w, u)| <= links
    ensures Work(w, urls) <= |pages| * (links + 2)
    decreases urls
  {
    hide Targets;
    if urls != [] {
      var front, last := urls[..|urls| - 1], urls[|urls| - 1];
      DistinctWork(w, front, pages - {last}, links);
      OneMore(|pages|, links + 2);
    } else {
      OneMore(|pages|, links + 2);
    }
  }

  lemma OneMore(a: nat, b: nat)
    ensures a > 0 ==> (a - 1) * b + b == a * b
    ensures a * b >= 0
  {
  }

  // ----- URLs -----

  /** A URL is a page and the fragment behind its first "#". */
  lemma UrlParts(page: Text, frag: Text)
    requires HASH !in page
    ensures PageOf(page + [HASH] + frag) == page && FragOf(page + [HASH] + frag) == frag
    ensures PageOf(page) == page && FragOf(page) == []
  {
    var url := page + [HASH] + frag;
    assert url[..|page|] == page && url[|page| + 1..] == frag;
    IndexByteUnique(url, HASH, |page|);
    IndexByteSpec(page, HASH);
  }

  /** The links of a page are taken below the root, in order; a redirect counts if it stays
      below the root. */
  lemma TargetsAre(w: Web, url: Text)
    ensures w.fetch(url).Page? ==>
      && |Targets(w, url)| == |w.fetch(url).links|
      && forall k | 0 <= k < |Targets(w, url)| :: Targets(w, url)[k] == w.root + w.fetch(url).links[k]
    ensures w.fetch(url).Redirect? ==>
      forall t :: t in Targets(w, url) <==> t == w.fetch(url).location && w.root <= t
    ensures !w.fetch(url).Page? && !w.fetch(url).Redirect? ==> Targets(w, url) == []
  {
    if w.fetch(url).Page? { PrefixedAre(w.root, w.fetch(url).links); }
  }

  lemma {:induction false} PrefixedAre(root: Text, links: seq<Text>)
    ensures |Prefixed(root, links)| == |links| && forall k | 0 <= k < |links| :: Prefixed(root, links)[k] == root + links[k]
    decreases links
  {
    if links != [] { PrefixedAre(root, links[1..]); }
  }
}
