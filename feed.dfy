/**
 The news screen's feed state and what one `getNews` call does to it.

 The screen keeps five pieces of state: the articles shown, the next page to
 request, whether the last page was reached, whether a request failed, and
 whether a request is in flight. A call does nothing once the last page was
 reached; otherwise it marks itself in flight, requests the current page and,
 when the answer arrives, either merges a non-empty page into the list (with
 duplicates removed) and advances the page, or records that the pages are
 exhausted (empty page), or records the failure; finally it clears the
 in-flight flag.

 The request itself is not modelled: its answer is an `Outcome` given to the
 operations. `Step` and `Run` are the reference transition on values;
 `NewsFeed` is the screen's mutable state, whose methods are proved to
 perform `Step`.
 */
module Feed {
  import opened Articles
  import opened Dedup

  /** What the request for one page produced. A response without an article
      list, or one whose body is not JSON, is a `Failed` outcome, as is a
      network error. */
  datatype Outcome = Page(items: seq<Article>) | Failed

  datatype FeedState = FeedState(
    articles: seq<Article>,
    pageNumber: int,
    lastPageReached: bool,
    hasErrored: bool,
    loading: bool
  )

  /** The state when the screen is first shown. */
  const Initial := FeedState([], 1, false, false, true)

  /** The list never holds two equal records, and the page is at least 1. */
  predicate Valid(s: FeedState)
  {
    Distinct(s.articles) && s.pageNumber >= 1
  }

  /** Entry to `getNews`, up to the request: the guard, then the in-flight flag. */
  function Begin(s: FeedState): FeedState
  {
    if s.lastPageReached then s else s.(loading := true)
  }

  /** The rest of `getNews`, once the request's outcome is known. */
  function Settle(s: FeedState, o: Outcome): FeedState
  {
    match o
    case Failed => s.(hasErrored := true, loading := false)
    case Page(items) =>
      if |items| > 0 then
        s.(articles := Deduplicated(s.articles + items), pageNumber := s.pageNumber + 1, loading := false)
      else
        s.(lastPageReached := true, loading := false)
  }

  /** One whole `getNews` call whose request produced `o`. */
  function Step(s: FeedState, o: Outcome): FeedState
  {
    if s.lastPageReached then s else Settle(Begin(s), o)
  }

  /** Successive `getNews` calls, one per outcome, each finishing before the
      next starts. */
  function Run(s: FeedState, os: seq<Outcome>): FeedState
    decreases |os|
  {
    if |os| == 0 then s else Run(Step(s, os[0]), os[1..])
  }

  /** Every call keeps the list free of duplicates and the page positive. */
  lemma StepPreservesValid(s: FeedState, o: Outcome)
    requires Valid(s)
    ensures Valid(Step(s, o))
  {
    if o.Page? && |o.items| > 0 {
      DedupDistinct(s.articles + o.items);
    }
  }

  /** A non-empty page keeps every article already shown, in place, adds
      exactly the page's new records after them, and advances the page by one. */
  lemma StepNonEmptyPage(s: FeedState, items: seq<Article>)
    requires Valid(s) && !s.lastPageReached && |items| > 0
    ensures var t := Step(s, Page(items));
      && t.articles == Deduplicated(s.articles + items)
      && |s.articles| <= |t.articles|
      && t.articles[..|s.articles|] == s.articles
      && (forall x :: x in t.articles <==> x in s.articles || x in items)
      && t.pageNumber == s.pageNumber + 1
      && t.lastPageReached == s.lastPageReached && t.hasErrored == s.hasErrored && !t.loading
  {
    DedupPrefix(s.articles, items);
    DedupOfDistinct(s.articles);
    DedupSameElements(s.articles + items);
  }

  /** `Run` over two batches of outcomes is `Run` over the first, then the second. */
  lemma {:induction false} RunAppend(s: FeedState, a: seq<Outcome>, b: seq<Outcome>)
    ensures Run(s, a + b) == Run(Run(s, a), b)
    decreases |a|
  {
    if |a| == 0 {
      assert a + b == b;
    } else {
      assert (a + b)[0] == a[0] && (a + b)[1..] == a[1..] + b;
      RunAppend(Step(s, a[0]), a[1..], b);
    }
  }

  /** Once the last page was reached, no further call changes anything. */
  lemma {:induction false} RunExhausted(s: FeedState, os: seq<Outcome>)
    requires s.lastPageReached
    ensures Run(s, os) == s
    decreases |os|
  {
    if |os| > 0 {
      RunExhausted(Step(s, os[0]), os[1..]);
    }
  }

  /** Over any sequence of calls: the list stays duplicate-free, articles once
      shown stay shown at their positions, the page never goes back, and the
      error and last-page flags, once set, stay set. */
  lemma {:induction false} RunMonotone(s: FeedState, os: seq<Outcome>)
    requires Valid(s)
    ensures var t := Run(s, os);
      && Valid(t)
      && |s.articles| <= |t.articles| && t.articles[..|s.articles|] == s.articles
      && s.pageNumber <= t.pageNumber
      && (s.hasErrored ==> t.hasErrored)
      && (s.lastPageReached ==> t.lastPageReached)
    decreases |os|
  {
    if |os| > 0 {
      var s1 := Step(s, os[0]);
      StepPreservesValid(s, os[0]);
      if !s.lastPageReached && os[0].Page? && |os[0].items| > 0 {
        StepNonEmptyPage(s, os[0].items);
      }
      RunMonotone(s1, os[1..]);
      var t := Run(s1, os[1..]);
      assert t.articles[..|s.articles|] == t.articles[..|s1.articles|][..|s.articles|];
    }
  }

  /** All the articles of a batch of pages, in order. */
  function Concat(pages: seq<seq<Article>>): seq<Article>
  {
    if |pages| == 0 then [] else pages[0] + Concat(pages[1..])
  }

  /** The outcomes of requests that returned `pages`. */
  function Delivered(pages: seq<seq<Article>>): seq<Outcome>
  {
    seq(|pages|, i requires 0 <= i < |pages| => Page(pages[i]))
  }

  /** A run of non-empty pages shows the deduplication of everything shown
      before followed by all the pages, and advances the page once per page. */
  lemma {:induction false} RunPages(s: FeedState, pages: seq<seq<Article>>)
    requires Valid(s) && !s.lastPageReached
    requires forall i :: 0 <= i < |pages| ==> |pages[i]| > 0
    ensures var t := Run(s, Delivered(pages));
      && t.articles == Deduplicated(s.articles + Concat(pages))
      && t.pageNumber == s.pageNumber + |pages|
      && !t.lastPageReached && t.hasErrored == s.hasErrored
      && t.loading == (s.loading && |pages| == 0)
    decreases |pages|
  {
    if |pages| == 0 {
      assert s.articles + Concat(pages) == s.articles;
      DedupOfDistinct(s.articles);
    } else {
      var os := Delivered(pages);
      assert os[0] == Page(pages[0]);
      assert os[1..] == Delivered(pages[1..]);
      var s1 := Step(s, Page(pages[0]));
      StepPreservesValid(s, Page(pages[0]));
      RunPages(s1, pages[1..]);
      DedupOfDedupPrefix(s.articles + pages[0], Concat(pages[1..]));
      assert s.articles + Concat(pages) == (s.articles + pages[0]) + Concat(pages[1..]);
    }
  }

  /** Pagination ends: after N non-empty pages and then an empty one, the page
      has advanced exactly N times, the last page is reached, and any further
      calls, whatever their outcomes, change nothing. */
  lemma PaginationTerminates(s: FeedState, pages: seq<seq<Article>>, later: seq<Outcome>)
    requires Valid(s) && !s.lastPageReached
    requires forall i :: 0 <= i < |pages| ==> |pages[i]| > 0
    ensures var t := Run(s, Delivered(pages) + [Page([])]);
      && t.lastPageReached && !t.loading && t.hasErrored == s.hasErrored
      && t.pageNumber == s.pageNumber + |pages|
      && t.articles == Deduplicated(s.articles + Concat(pages))
      && Run(s, Delivered(pages) + [Page([])] + later) == t
  {
    var ps := Delivered(pages);
    RunPages(s, pages);
    RunAppend(s, ps, [Page([])]);
    var t := Run(s, ps + [Page([])]);
    assert t == Step(Run(s, ps), Page([]));
    RunAppend(s, ps + [Page([])], later);
    RunExhausted(t, later);
  }

  /** The screen's state as mutable fields, one per `useState` hook. */
  class NewsFeed {
    var loading: bool
    var articles: seq<Article>
    var pageNumber: int
    var hasErrored: bool
    var lastPageReached: bool

    ghost function State(): FeedState
      reads this
    {
      FeedState(articles, pageNumber, lastPageReached, hasErrored, loading)
    }

    ghost predicate Inv()
      reads this
    {
      Valid(State())
    }

    /** The hooks' initial values. */
    constructor ()
      ensures Inv() && State() == Initial
    {
      loading := true;
      articles := [];
      pageNumber := 1;
      hasErrored := false;
      lastPageReached := false;
    }

    /** Entry to `getNews`: returns at once when the last page was reached,
        and otherwise marks a request in flight. */
    method BeginFetch() returns (proceed: bool)
      requires Inv()
      modifies this
      ensures Inv()
      ensures proceed == !old(lastPageReached)
      ensures State() == Begin(old(State()))
      ensures proceed ==> loading
    {
      if lastPageReached {
        return false;
      }
      loading := true;
      return true;
    }

    /** The rest of `getNews`, given what the request produced. */
    method FinishFetch(outcome: Outcome)
      requires Inv()
      modifies this
      ensures Inv()
      ensures State() == Settle(old(State()), outcome)
      ensures !loading
    {
      match outcome {
        case Failed =>
          hasErrored := true;
        case Page(items) =>
          var hasMoreArticles := |items| > 0;
          if hasMoreArticles {
            var newArticleList := FilterForUniqueArticles(articles + items);
            articles := newArticleList;
            pageNumber := pageNumber + 1;
          } else {
            lastPageReached := true;
          }
      }
      loading := false;
    }

    /** One `getNews` call whose request produced `outcome`. */
    method GetNews(outcome: Outcome)
      requires Inv()
      modifies this
      ensures Inv()
      ensures State() == Step(old(State()), outcome)
      // exhausted: nothing changes
      ensures old(lastPageReached) ==> State() == old(State())
      // past the guard, the in-flight flag is cleared in every branch
      ensures !old(lastPageReached) ==> !loading
      // a non-empty page: merge, deduplicate, advance; old list is a prefix
      ensures !old(lastPageReached) && outcome.Page? && |outcome.items| > 0 ==>
        && articles == Deduplicated(old(articles) + outcome.items)
        && |old(articles)| <= |articles| && articles[..|old(articles)|] == old(articles)
        && pageNumber == old(pageNumber) + 1
        && lastPageReached == old(lastPageReached) && hasErrored == old(hasErrored)
      // an empty page: the last page is reached, list and page unchanged
      ensures !old(lastPageReached) && outcome == Page([]) ==>
        && lastPageReached
        && articles == old(articles) && pageNumber == old(pageNumber) && hasErrored == old(hasErrored)
      // a failure: the error flag is set, list, page and last-page flag unchanged
      ensures !old(lastPageReached) && outcome.Failed? ==>
        && hasErrored
        && articles == old(articles) && pageNumber == old(pageNumber) && lastPageReached == old(lastPageReached)
    {
      var proceed := BeginFetch();
      if !proceed {
        return;
      }
      FinishFetch(outcome);
      if outcome.Page? && |outcome.items| > 0 {
        StepNonEmptyPage(old(State()), outcome.items);
      }
    }
  }

  /** The two merges of the scenario below. */
  lemma ScenarioLists(a: Article, b: Article, c: Article)
    requires a != b && b != c && a != c
    ensures Deduplicated([] + [a, b]) == [a, b]
    ensures Deduplicated([a, b] + [b, c]) == [a, b, c]
  {
    assert [] + [a, b] == [a, b];
    DedupOfDistinct([a, b]);
    var merged := [a, b] + [b, c];
    assert merged[..3] == [a, b] + [b];
    DedupAppendCovered([a, b], [b]);
    assert Deduplicated(merged[..3]) == [a, b];
    assert merged[3] == c && c !in [a, b];
  }

  /** A first page [a, b], a second page [b, c] repeating b, then an empty
      page: the screen shows [a, b, c], the next page would be 3, and the last
      page is reached. */
  method EndToEnd(a: Article, b: Article, c: Article)
    returns (shown: seq<Article>, page: int, exhausted: bool, failed: bool)
    requires a != b && b != c && a != c
    ensures shown == [a, b, c] && page == 3 && exhausted && !failed
  {
    ScenarioLists(a, b, c);
    var feed := new NewsFeed();
    feed.GetNews(Page([a, b]));
    feed.GetNews(Page([b, c]));
    feed.GetNews(Page([]));
    feed.GetNews(Page([c, a]));
    shown, page, exhausted, failed := feed.articles, feed.pageNumber, feed.lastPageReached, feed.hasErrored;
  }
}
