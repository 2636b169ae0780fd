# JobScraper listing crawl, modelled in Dafny

This project models the two pieces of sequential logic in the JobScraper
listing route: the scroll-until-stable loop (`scrollDown` in `utils.js` and
the inline copy in the `/scrape/remoterocketship` handler of `index.js`), and
the mapping from matched job headings to `{ title, link }` items, wrapped in
the route's `{ ok, count, jobs }` / `{ ok: false, error }` response.

The browser is replaced by plain data:

- the page's content height is a *height oracle* `heights: nat -> int`, where
  `heights(j)` is the j-th `document.body.scrollHeight` reading. The loop
  reads the page exactly once per iteration, so j is also the iteration
  number. An oracle rather than a finite list means no precondition about
  "enough readings" is needed; the worked example `[1000, 2000, 3000, 3000]`
  is an oracle that keeps answering 3000;
- each scroll, each 1000 ms wait and each reading is an `Event` appended to a
  trace, in the order the loop performs them;
- the matched headings are a list of `Heading` records (own text plus an
  optional anchor with text and href), taken as given in document order;
- an error thrown before the scroll loop (the shared browser launch,
  `newContext`, `newPage`, `addInitScript` or `page.goto`, index.js:30-47)
  is an optional error message; within a running request every such error
  reaches the `catch`.

Modules: `Wrappers` (Option, Result), `Text` (trimming), `Scroll` (the loop
and its declarative specification), `Listing` (heading extraction),
`Scraper` (the route handler, its cap of 40 and its response).

The loop's partner is a declarative specification: `StopsAfter` says the
number of scrolling iterations is the index of the first reading that equals
the one before (0 before the first), or the whole budget if none does;
`TraceOf` says the trace is reading, scroll, wait for each of those
iterations, then one final reading if the loop broke early.
`ScrollRunDeterministic` shows the specification admits exactly one run, so
`ScrollDown`'s contract fixes its result completely.

## Model

| member | source | states |
|---|---|---|
| Scroll.ScrollDown | utils.js:1-16 | The loop stops at the first reading equal to the previous one (0 before the first), never runs more than `scrollCount` iterations, and emits reading, scroll, 1000 ms wait per iteration that goes on; readings and scrolls are at most `scrollCount`, waits equal scrolls, none at all when `scrollCount <= 0`, a single reading and no scroll when the first reading is 0, exactly `scrollCount` scrolls when no reading repeats its predecessor, and the loop's local `previousHeight` (exposed by the model; the JavaScript function returns nothing) ends as the last reading that was followed by a scroll (0 when none was) |
| Scroll.TraceOccurrences | utils.js:6-15 | A trace of the loop's shape holds one scroll and one wait per iteration that goes on, and one more reading than scrolls exactly when the loop broke before its budget |
| Scroll.ScrollRunDeterministic | utils.js:5-9 | The stopping rule and trace shape determine the number of scrolls and every event of the trace uniquely |
| Text.Trim | index.js:74-75 | The trimmed text starts and ends with non-whitespace and is a window of the input with only whitespace outside it |
| Text.TrimUnique | index.js:74-75 | Any window with only whitespace around it and no whitespace at its ends is exactly the trimmed text |
| Text.TrimOfTrimmed | index.js:74-75 | Text without outer whitespace is returned unchanged |
| Text.TrimIdempotent | index.js:74-75 | Trimming twice equals trimming once |
| Listing.ItemOf | index.js:72-79 | `link` is null exactly when the heading has no anchor and is the anchor's href otherwise; `title` is the trimmed anchor text when there is an anchor and the trimmed heading text otherwise, so it never has outer whitespace |
| Listing.ExtractJobs | index.js:68-71 | One item per matched heading, same length, item i extracted from heading i |
| Listing.ExtractJobsAppend | index.js:70-71 | Extracting a concatenation of heading lists concatenates the extracted lists, so no item moves relative to another |
| Listing.HeadingTextIgnoredWithAnchor | index.js:72-75 | When an anchor exists, the heading's own text does not influence the item |
| Listing.ItemOfHeadingFor | index.js:72-79 | Every item with a trimmed title is reproduced by extracting the heading that renders it |
| Listing.ExtractRenderRoundTrip | index.js:68-81 | Rendering the extracted jobs as headings with a witness renderer (not page behaviour) and extracting again yields the same jobs |
| Scraper.Respond | index.js:86-93 | `ok` is true exactly when the try block completed; on success `count` equals the length of `jobs`, which are the extracted items, with status 200; on a thrown error the body carries its message, no jobs, with status 500 |
| Scraper.RespondRoundTrip | index.js:86-93 | A client reading the response recovers exactly the jobs or the error message |
| Scraper.ScrollListing | index.js:50-60 | The inline loop follows the same stopping rule and trace shape with a cap of 40, so it never exceeds 40 readings or 40 scrolls |
| Scraper.ScrapeListing | index.js:29-94 | An error thrown before the scroll loop (launch, context, page, init script or navigation) yields `{ ok: false, error }` with its message and no scrolling; otherwise the response is `ok` with `count` equal to the number of jobs, the jobs are the headings' items in order, and the trace is exactly the scroll loop's run under the stopping rule with a cap of 40 |
| Scraper.ExampleStopsAtFourthReading | index.js:50-60 | Heights 1000, 2000, 3000, 3000 stop at the 4th reading after 3 scrolls, with the full trace given |

## Left out

- The Express server, its routes, the health endpoint, the port and `listen` (index.js:1-5, 20-22, 97-99): request plumbing with no logic of its own.
- Browser launch, context options (viewport, user agent, locale) and the `navigator.webdriver` override (index.js:11-18, 30-44): calls into Playwright with no visible semantics.
- The navigation itself and its 60 s timeout (index.js:47): only its failure is modelled, as an error message reaching the `catch`.
- Failures of the awaited calls after navigation (`page.evaluate`, `page.waitForTimeout`, `page.content`, `$$eval`, `context.close`): `Scraper.Respond` handles any thrown error, but `Scraper.ScrapeListing` only takes an error thrown before the scroll loop as input.
- Scroll.ScrollDown: `scrollCount` is taken as an integer; a fractional JavaScript number (2.5 allows 3 iterations), `NaN` or `undefined` (no iterations) is not modelled, and no caller in index.js or utils.js passes one.
- A browser launch rejection that settles before any request awaits `browserPromise` (index.js:11-18) is unhandled and ends the process under Node's default; `loadError` covers a launch failure only as a running request sees it at index.js:30.
- Logging and the HTML dump (index.js:46, 49, 62-66): side effects only.
- Real time: `sleep` (utils.js:18) is not used by the loop and is not modelled; `waitForTimeout` becomes a `Wait(1000)` event, not elapsed time.
- `context.close()` (index.js:84): resource disposal; it runs on the success path only and the model does not track contexts.
- CSS selector matching (index.js:69), `innerText` rendering and the resolution of `href` to an absolute URL: the matched headings, their texts and the resolved hrefs are inputs.
- Text.Trim: uses a fixed whitespace set (ASCII blanks and line breaks, U+00A0, U+FEFF, U+2028, U+2029) instead of every Unicode space separator JavaScript's `trim` removes.
- The dependence of each height reading on the scrolls before it is not modelled: the oracle fixes the readings in advance, which is enough because the loop alternates reading and scrolling strictly.
