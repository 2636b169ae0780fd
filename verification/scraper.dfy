/**
 * The `/scrape/remoterocketship` handler: load the listing, scroll until the
 * content height settles (at most 40 readings), extract the job headings and
 * answer `{ ok, count, jobs }`, or `{ ok: false, error }` when anything throws.
 */
module Scraper {
  import opened Wrappers
  import Scroll
  import Listing

  /** Iteration cap of the handler's own scroll loop. */
  const ListingScrollCap: int := 40

  /** The JSON body sent back, with its HTTP status. */
  datatype Response =
    | Listed(count: nat, jobs: seq<Listing.ListingItem>)   // `{ ok: true, count, jobs }`
    | Errored(error: string)                               // `{ ok: false, error }`
  {
    predicate Ok() {
      Listed?
    }

    function Status(): nat {
      if Listed? then 200 else 500
    }
  }

  /** What the `try` block produced: the extracted jobs, or the message of the error it threw. */
  type Attempt = Result<seq<Listing.ListingItem>, string>

  /** Turns the outcome of the `try` block into the response body. */
  function Respond(attempt: Attempt): (response: Response)
    ensures response.Ok() <==> attempt.Success?
    ensures response.Ok() ==> response.count == |response.jobs| && response.Status() == 200
    ensures attempt.Success? ==> response.jobs == attempt.value
    ensures attempt.Failure? ==> response.error == attempt.error && response.Status() == 500
  {
    match attempt
    case Success(jobs) => Listed(|jobs|, jobs)
    case Failure(message) => Errored(message)
  }

  /** What a client reads from a response body. */
  function Interpret(response: Response): Attempt {
    match response
    case Listed(_, jobs) => Success(jobs)
    case Errored(message) => Failure(message)
  }

  /** The response loses nothing: the client recovers exactly the jobs or the error message. */
  lemma RespondRoundTrip(attempt: Attempt)
    ensures Interpret(Respond(attempt)) == attempt
  {
  }

  /** The handler's inline copy of the scroll loop, capped at 40 iterations. */
  method ScrollListing(heights: Scroll.HeightOracle) returns (trace: seq<Scroll.Event>)
    ensures Scroll.StopsAfter(heights, ListingScrollCap, Scroll.Scrolls(trace))
    ensures Scroll.TraceOf(heights, ListingScrollCap, Scroll.Scrolls(trace), trace)
    ensures Scroll.Measurements(trace) <= ListingScrollCap && Scroll.Scrolls(trace) <= ListingScrollCap
  {
    var previousHeight;
    trace, previousHeight := Scroll.ScrollDown(heights, ListingScrollCap);
  }

  /** The route handler, with the browser replaced by plain data: `loadError`
      is the message of an error thrown before the scroll loop, if one was
      (by the shared browser launch as this request awaits it, `newContext`,
      `newPage`, `addInitScript` or `page.goto`); `heights` answers the
      successive `document.body.scrollHeight` readings; `headings` are the
      matched job headings once scrolling has ended. Returns the response
      and the scroll trace. */
  method ScrapeListing(loadError: Option<string>, heights: Scroll.HeightOracle, headings: seq<Listing.Heading>)
    returns (response: Response, trace: seq<Scroll.Event>)
    ensures response.Ok() <==> loadError.None?
    ensures loadError.Some? ==> response == Errored(loadError.value) && trace == []
    ensures response.Ok() ==> response.count == |response.jobs|
    ensures response.Ok() ==> response.jobs == Listing.ExtractJobs(headings)
    ensures response.Ok() ==> Scroll.StopsAfter(heights, ListingScrollCap, Scroll.Scrolls(trace))
    ensures response.Ok() ==> Scroll.TraceOf(heights, ListingScrollCap, Scroll.Scrolls(trace), trace)
    ensures Scroll.Measurements(trace) <= ListingScrollCap && Scroll.Scrolls(trace) <= ListingScrollCap
  {
    match loadError
    case Some(message) =>
      trace := [];
      response := Respond(Failure(message));
    case None =>
      trace := ScrollListing(heights);
      var jobs := Listing.ExtractJobs(headings);
      response := Respond(Success(jobs));
  }

  /** The worked example: heights 1000, 2000, 3000, 3000, after which the
      page keeps answering 3000. */
  function ExampleHeights(j: nat): int {
    if j == 0 then 1000 else if j == 1 then 2000 else 3000
  }

  /** Under the cap of 40, the example stops at its 4th reading after 3
      scrolls, and this is the whole trace. */
  lemma ExampleStopsAtFourthReading(scrolls: nat, trace: seq<Scroll.Event>)
    requires Scroll.StopsAfter(ExampleHeights, ListingScrollCap, scrolls)
    requires Scroll.TraceOf(ExampleHeights, ListingScrollCap, scrolls, trace)
    ensures scrolls == 3
    ensures trace == [Scroll.Measure(1000), Scroll.ScrollToBottom, Scroll.Wait(1000),
                      Scroll.Measure(2000), Scroll.ScrollToBottom, Scroll.Wait(1000),
                      Scroll.Measure(3000), Scroll.ScrollToBottom, Scroll.Wait(1000),
                      Scroll.Measure(3000)]
    ensures Scroll.Measurements(trace) == 4 && Scroll.Scrolls(trace) == 3
  {
    assert !Scroll.Settled(ExampleHeights, 0);
    assert !Scroll.Settled(ExampleHeights, 1);
    assert !Scroll.Settled(ExampleHeights, 2);
    assert Scroll.Settled(ExampleHeights, 3);
    assert scrolls == 3;
    assert Scroll.ExpectedEvent(ExampleHeights, 3) == Scroll.Measure(2000);
    assert Scroll.ExpectedEvent(ExampleHeights, 6) == Scroll.Measure(3000);
    assert forall k :: 0 <= k < 9 ==> trace[k] == Scroll.ExpectedEvent(ExampleHeights, k);
    Scroll.TraceOccurrences(ExampleHeights, ListingScrollCap, scrolls, trace);
  }
}
