# shakesearch search core, modelled in Dafny

This project models the search core of `Searcher` in `main.go`. The core has two parts:

- **Load** lowercases the raw corpus. It keeps that one text as the string that is searched and as the input of the suffix-array index.
- **Search** lowercases the query and asks the index for every match offset (`Lookup(q, -1)`). It takes the page `[page*pageSize, min(page*pageSize + pageSize, n))` of that offset list. For each offset it returns the corpus window `[max(0, idx-250), min(len, idx+250))`.

The model also covers the `max`/`min` helpers and the `page`/`pageSize` defaulting in the request handler.

Modules, one per component:

- `Bounds` (`bounds.dfy`): `Max`, `Min` and half-open intervals (`Span`).
- `Lookup` (`lookup.dfy`): bytes, occurrences, and the contract of `Lookup(q, -1)`. Lookup returns a duplicate-free list whose elements are exactly the occurrence offsets of a non-empty query, in an unspecified order. An empty query gets no offsets. The module also has a linear-scan reference index (`NaiveIndex`) that meets this contract.
- `Window` (`window.dfy`): the clamped 250-byte window and the snippet cut from it.
- `Engine` (`engine.dfy`): the `Searcher` value, `Load`, `Search`, and the laws of pagination.
- `Handler` (`handler.dfy`): resolving `page` and `pageSize` from URL values.
- `Wrappers` (`wrappers.dfy`): `Option`.

`strings.ToLower` and `suffixarray.New` are foreign code. They are passed in as the function values of a `Library`. `Library.Valid()` requires that every index the library builds answers every query by the lookup contract. `ToLower` is kept abstract: the model assumes no ASCII semantics, no idempotence and no length preservation. In the program both `Load` and `Search` call the one global `strings.ToLower`. In the model, `Load` and `Search` each take the `Library` as a parameter, and callers must pass the same one to both. `Engine.LoadedSearchWindows` states what searching a loaded corpus gives when they do. Go's `strconv.Atoi` is an abstract `string -> Option<int>`.

The model follows the code:

- **No ordering.** The code never sorts the lookup result, so `Search` promises the index's own order and nothing more. The linear-scan reference index happens to return ascending offsets, but `Library.Valid` does not require this.
- **Out-of-range pages fail.** A page past the last match is not an empty result: `idxs[startIdx:endIdx]` panics when `startIdx < 0` or `startIdx > endIdx`. So `Search` requires `PageInRange(n, page, pageSize)`, which is `0 <= pageSize && 0 <= page*pageSize <= n`. This is exactly the panic-free condition, because the lookup's slice has capacity `n`.
- **Snippet slices.** In the same way, `Window.Sliceable(works, idx)`, which is `-250 <= idx <= len+250`, is exactly the condition under which `s.CompleteWorks[start:end]` does not panic. `Window.Snippet` requires it. Every offset a valid index reports satisfies it.
- `Handler.NegativePageOutOfRange` shows that a negative `page` value passes through the handler and can never satisfy `PageInRange`.
- `Engine.PagesCoverAll` shows that the page after page `n / pageSize` is always out of range. The browser client moves its page counter forward after every non-empty page, and fetches that page when the user asks for more results. So after a partial last page, the next "load more" request is one of these failing requests.

## Model

| member | source | states |
|---|---|---|
| Bounds.Max | main.go:121-126 | the result is at least both arguments and is one of them |
| Bounds.Min | main.go:129-134 | the result is at most both arguments and is one of them |
| Lookup.LookupResultInText | main.go:102 | every offset reported for a query is a real occurrence of it, so the query is non-empty and the offset lies inside the corpus |
| Lookup.LookupCount | main.go:102 | a lookup reports each occurrence exactly once, so its length equals the number of distinct match offsets |
| Lookup.NaiveIndexCorrect | main.go:95 | a linear-scan index meets the lookup contract (duplicate-free, exactly the occurrence offsets, none for an empty query), so the contract is satisfiable |
| Engine.NaiveLibraryValid | main.go:93-95 | a library built on the linear-scan index satisfies the library contract, whatever its case folding |
| Window.WindowOf | main.go:113-114 | the window never starts before 0 or ends after the corpus; it holds exactly the corpus positions within 250 before and under 250 after the offset; it starts at 0 for offsets up to 250 and ends at the corpus end for offsets within 250 of it; it is a valid slice exactly when -250 <= idx <= len+250 |
| Window.Snippet | main.go:113-115 | a snippet is the contiguous corpus slice of its window, is at most 500 bytes long, and is exactly 500 bytes when 250 <= idx <= len-250 |
| Window.MatchInSnippet | main.go:113-115 | for a real match the window contains the match offset, the snippet holds the match's first byte at position idx-start, and the whole query when it is at most 250 bytes long |
| Engine.Load | main.go:93-95 | the searched text is the lowercased raw corpus, and with a valid library the index is consistent with exactly that text |
| Engine.MatchOffsets | main.go:101-102 | the offsets are the lookup of the lowercased query: duplicate-free, exactly its occurrences, as many as there are distinct matches, all inside the corpus |
| Engine.PageOf | main.go:105-109 | the page starts at page*pageSize; it is a valid slice of the n offsets exactly when PageInRange holds; it then has min(pageSize, n - page*pageSize) positions, namely those in [page*pageSize, page*pageSize + pageSize) below n |
| Engine.Snippets | main.go:111-116 | the loop produces one snippet per offset |
| Engine.SnippetsAt | main.go:112-115 | snippet k is cut around offset k, so order is kept and nothing is filtered |
| Engine.SnippetsAppend | main.go:111-116 | cutting snippets distributes over concatenation of offset lists |
| Engine.Page | main.go:105-116 | a page of an offset list has min(pageSize, n - page*pageSize) snippets |
| Engine.PageAt | main.go:112-115 | result i of a page is the snippet of offset page*pageSize + i |
| Engine.Search | main.go:99-118 | given PageInRange, the result count is min(pageSize, matches - page*pageSize), so never more than pageSize and 0 when page*pageSize equals the match count; result i is the snippet of lookup offset page*pageSize + i |
| Engine.SnippetHoldsMatch | main.go:112-115 | the snippet of a reported offset is non-empty, its window contains the match start, and it contains the whole query when that is at most 250 bytes |
| Engine.LoadedSearchWindows | main.go:93-115 | with a valid library, a loaded searcher is valid, and each search result, when it is loaded and searched with that same library, is the window of the lowercased corpus around an occurrence of the lowercased query |
| Engine.SearchResultHoldsMatch | main.go:101-115 | every search result is a non-empty window around a real occurrence of the lowercased query, and contains that query when it is at most 250 bytes |
| Engine.NoMatchNoResults | main.go:101-112 | a query with no occurrences, including one whose lowercase form is empty, gives an empty first page |
| Engine.SearchThroughLower | main.go:101-102 | two queries with the same lowercase form give identical results for every page |
| Engine.PageExtends | main.go:105-116 | the snippets before a page followed by that page are the snippets of the offsets up to the page's end |
| Engine.PagesConcat | main.go:105-112 | pages 0..k with a fixed page size, concatenated, are the snippets of offsets [0, min((k+1)*pageSize, n)) in lookup order, provided page k starts at most at n |
| Engine.PagesCoverAll | main.go:105-112 | with pageSize > 0, pages 0..n/pageSize are all in range; together they equal the single page of size n; page n/pageSize + 1 is out of range |
| Handler.ResolvePaging | main.go:56-71 | pageSize is always positive: it is the parsed value when that is positive and 20 otherwise; page is the parsed value when it parses and 0 otherwise |
| Handler.ResolvedPagingInRange | main.go:56-73 | a resolved request is in range for n matches exactly when its page is non-negative and page*pageSize <= n; without a parseable page value it is always in range |
| Handler.NegativePageOutOfRange | main.go:59-64 | a page value that parses to a negative number is kept, and the request is out of range for every match count |

## Left out

- HTTP serving, routing, static files and the `PORT` lookup (main.go:16-38) are I/O plumbing.
- The 400 response for a missing or empty `q`, JSON encoding and the 500 response (main.go:47-53, main.go:73-83) are transport glue. The model starts from the resolved query and paging values.
- Reading the corpus file and wrapping the read error in `Load` (main.go:88-91) are I/O. `Load` is a pure constructor from the raw bytes.
- The internals of `strings.ToLower` and `index/suffixarray` are foreign library code. They are specified only through `Library`: an abstract case-folding function, and the occurrence contract of `Lookup(q, -1)`.
- Integer overflow of `page*pageSize` and of `idx+250` is not modelled. The model uses mathematical integers, and the range assumption is stated as `PageInRange`.
- The Go runtime panic on an out-of-range page is modelled as the precondition of `Search`, not as an error value. The recovery by the HTTP server is transport behaviour.
- `static/app.js` is a browser controller doing DOM manipulation and fetch. Only its request pattern, one more page after each non-empty page, is discussed above.
- Concurrency: the searcher is immutable after `Load`, and every search is a pure function of it.
