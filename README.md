# News feed screen: deduplication and paging state

The app is a single React Native screen (`App.js`) that shows top headlines
from a paginated REST API. It keeps a list of articles, the number of the
next page to request, and three flags: the last page was reached, a request
failed, and a request is in flight. Each call of `getNews` requests one
page. A non-empty page is appended to the list, records structurally equal to
one already kept are dropped (first occurrence wins), and the page number
advances. An empty page marks the last page as reached. A failure sets the
error flag. Once the last page is reached, `getNews` does nothing.

This project models those two pieces of logic and proves their properties:

- `articles.dfy`, module `Articles`: the article record. Two records are
  "the same" when every field is equal. The app decides this by comparing
  their JSON serialisations.
- `dedup.dfy`, module `Dedup`: `Deduplicated` is the specification of
  `filterForUniqueArticles`. `FilterForUniqueArticles` is the app's
  nested-loop algorithm, proved to compute it. The lemmas show that the
  output is free of duplicates, has the same elements as the input, and keeps
  first occurrences in input order. These three facts determine the output
  completely. The filter is also idempotent, is the identity on distinct
  lists, and is stable under appending.
- `feed.dfy`, module `Feed`: `Step` and `Run` are the reference transition
  of `getNews` on a value `FeedState`, with the outcome of the request
  (`Page(items)` or `Failed`) as an input. The lemmas prove these:
  - the no-duplicates invariant is kept;
  - articles already shown keep their positions;
  - the error and last-page flags are sticky;
  - once exhausted, further calls do nothing;
  - after N non-empty pages and one empty page, the page has advanced
    exactly N times.

  The class `NewsFeed` holds the five `useState` fields. Its methods
  `BeginFetch` (the part before the `await`), `FinishFetch` (the part after
  it) and `GetNews` are proved to perform `Begin`, `Settle` and `Step`.
  `EndToEnd` runs one fixed sequence of calls on a fresh `NewsFeed`: pages
  `[a, b]`, `[b, c]`, then an empty page. It shows `[a, b, c]` at page 3 with
  the last page reached.

Notes on the code as written:

- The code computes `filterForUniqueArticles(articles.concat(page))`. It does
  not filter only the incoming page against the existing list.
  `StepNonEmptyPage` proves that the existing list, already distinct,
  survives unchanged as a prefix. So only incoming records are ever
  dropped.
- The last page is reached only when a page has zero records.
  A non-empty page that adds no new records still advances the page number.
- The error flag does not stop later calls. `getNews` checks only
  `lastPageReached`.

## Model

| member | source | states |
|---|---|---|
| `Dedup.Deduplicated` | App.js:74-85 | definition: the filter's result, built left to right with an accumulator that gains each record not already in it |
| `Dedup.FilterForUniqueArticles` | App.js:74-85 | the nested loops return exactly `Deduplicated(arr)`; the result has no two equal records and the same elements as the input |
| `Dedup.DedupDistinct` | App.js:76-82 | no two positions of the filter's output hold structurally equal records |
| `Dedup.DedupSameElements` | App.js:76-83 | a record is in the output if and only if it is in the input |
| `Dedup.DedupFirstOccurrenceOrder` | App.js:76-83 | output elements come from the input and appear in the order of their first occurrence in it (strictly increasing first-occurrence positions), so the output is the subsequence of first occurrences |
| `Dedup.DedupCharacterized` | App.js:74-85 | any sequence that is duplicate-free, has the input's elements and is ordered by first occurrence equals the filter's output |
| `Dedup.DedupOfDistinct` | App.js:74-85 | on an input without duplicates the filter returns the input unchanged |
| `Dedup.DedupIdempotent` | App.js:74-85 | filtering twice gives the same result as filtering once |
| `Dedup.DedupDoubled` | App.js:74-85 | a list followed by itself filters to the same result as the list alone |
| `Dedup.DedupPrefix` | App.js:76-83 | the output for `a` is a prefix of the output for `a + b`: appending input never drops or moves a kept record |
| `Dedup.DedupAppendCovered` | App.js:76-83 | appending records that are all already in the input leaves the output unchanged |
| `Dedup.DedupOfDedupPrefix` | App.js:43 | filtering a prefix first, then filtering it together with more input, gives the same result as filtering everything at once |
| `Feed.Initial` | App.js:15-19 | definition: no articles, page 1, last page not reached, no error, loading |
| `Feed.Begin` | App.js:36-37 | definition: unchanged when the last page was reached, otherwise the same state with loading set |
| `Feed.Settle` | App.js:41-52 | definition: failure sets the error flag; a non-empty page filters old list plus page and advances the page; an empty page sets the last-page flag; loading is cleared in each case |
| `Feed.Step` | App.js:35-53 | definition: one call, either the early return or `Settle` after `Begin` |
| `Feed.Run` | App.js:35-53 | definition: successive calls, one per outcome, each finishing before the next starts |
| `Feed.StepPreservesValid` | App.js:42-45 | every `getNews` call keeps the list free of duplicates and the page number at least 1 |
| `Feed.StepNonEmptyPage` | App.js:41-45 | on a non-empty page the list becomes the filter of old list plus page; the old list is a prefix of the new one; the new list's elements are exactly the old ones and the page's; the page number goes up by exactly 1; the other flags are unchanged and loading is cleared |
| `Feed.RunExhausted` | App.js:36 | once the last page is reached, any further calls leave the whole state unchanged |
| `Feed.RunMonotone` | App.js:35-53 | over any sequence of calls the invariant holds, shown articles keep their positions, the page number never decreases, and the error and last-page flags stay set once set |
| `Feed.RunPages` | App.js:41-45 | after a run of non-empty pages the list is the filter of the old list followed by all pages, and the page number has advanced once per page |
| `Feed.PaginationTerminates` | App.js:35-53 | after N non-empty pages then an empty page the page number has advanced exactly N times, the last page is reached, loading is cleared, and any later calls change nothing |
| `Feed.NewsFeed.constructor` | App.js:15-19 | the fields start as the hooks' initial values and satisfy the invariant |
| `Feed.NewsFeed.BeginFetch` | App.js:36-37 | returns without change when the last page was reached; otherwise sets loading and proceeds |
| `Feed.NewsFeed.FinishFetch` | App.js:41-52 | performs `Settle`: merge, filter and advance on a non-empty page; set last-page on an empty page; set the error flag on failure; loading cleared; invariant kept |
| `Feed.NewsFeed.GetNews` | App.js:35-53 | performs `Step`. Exhausted: nothing changes. Non-empty page: filtered merge, old list as prefix, page + 1. Empty page: last page reached, list and page unchanged. Failure: error flag set, list, page and last-page flag unchanged. Every branch past the guard ends with loading false |
| `Feed.EndToEnd` | App.js:35-53 | pages `[a, b]`, `[b, c]`, `[]` and then one more page leave `[a, b, c]` shown, page 3, last page reached, no error |

## Left out

- The HTTP request, `response.json()`, the URL and the API key (App.js:39-40) are network I/O. They are replaced by the `Outcome` parameter. A missing `articles` field or a body that is not JSON throws inside the `try`, so it becomes `Failed`.
- Rendering (`renderItem`, `FlatList`, `Card`, the loading and error screens, `keyExtractor`; App.js:55-72, 87-118) is UI.
- Opening links through `Linking` (App.js:25-33) is a platform call.
- `moment` date formatting (App.js:66) is a library call. It is also applied to the list rather than to the item.
- The style sheet (App.js:121-152) is styling.
- Key-order sensitivity of `JSON.stringify` is not modelled. `Article` stands for the whole record as received, with every field `JSON.stringify` serialises. Two records are equal when all their fields are equal. The fields the model names are the ones the headlines API documents for an article. Any further field the API might send is not represented.
- The `useEffect` hook that calls `getNews` again after every change of `articles` (App.js:21-23) is not modelled. Neither are overlapping calls from `onEndReached` (App.js:111), nor React's batching of state updates and stale closures. These are asynchronous scheduling. The model runs each call to completion before the next starts. `BeginFetch` and `FinishFetch` expose the state at the `await` without modelling interleavings.
- `pageNumber` is an unbounded integer. JavaScript numbers are exact only up to 2^53, a page count this screen cannot reach.
