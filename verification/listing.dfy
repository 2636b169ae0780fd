/**
 * The listing extraction: every matched job heading becomes one
 * `{ title, link }` item, in document order.
 */
module Listing {
  import opened Wrappers
  import Text

  /** An `a[href]` element inside a heading: its rendered text and its resolved href. */
  datatype Anchor = Anchor(text: string, href: string)

  /** A matched job heading: its own rendered text and its first `a[href]`, if any. */
  datatype Heading = Heading(text: string, anchor: Option<Anchor>)

  /** One listing entry; `link` is `None` where the page gave `null`. */
  datatype ListingItem = ListingItem(title: string, link: Option<string>)

  /** The text a heading's title is taken from: the anchor's when there is one. */
  function TitleSource(heading: Heading): string {
    match heading.anchor
    case Some(a) => a.text
    case None => heading.text
  }

  /** The per-heading mapping of the `$$eval` callback. */
  function ItemOf(heading: Heading): (item: ListingItem)
    ensures item.link.None? <==> heading.anchor.None?
    ensures heading.anchor.Some? ==> item.link == Some(heading.anchor.value.href)
    ensures item.title == Text.Trim(TitleSource(heading))
    ensures Text.IsTrimmed(item.title)
  {
    match heading.anchor
    case Some(a) => ListingItem(Text.Trim(a.text), Some(a.href))
    case None => ListingItem(Text.Trim(heading.text), None)
  }

  /** `titleNodes.map(...)`: one item per heading, in the same order. */
  function ExtractJobs(headings: seq<Heading>): (jobs: seq<ListingItem>)
    ensures |jobs| == |headings|
    ensures forall i :: 0 <= i < |headings| ==> jobs[i] == ItemOf(headings[i])
  {
    if |headings| == 0 then [] else [ItemOf(headings[0])] + ExtractJobs(headings[1..])
  }

  /** Extraction commutes with splitting the heading list, so items never move
      relative to one another. */
  lemma ExtractJobsAppend(a: seq<Heading>, b: seq<Heading>)
    ensures ExtractJobs(a + b) == ExtractJobs(a) + ExtractJobs(b)
  {
  }

  /** When a heading holds an anchor, the heading's own text has no influence. */
  lemma HeadingTextIgnoredWithAnchor(heading: Heading, otherText: string)
    requires heading.anchor.Some?
    ensures ItemOf(heading.(text := otherText)) == ItemOf(heading)
  {
  }

  /** A witness renderer, not behaviour of the page: the simplest heading
      whose extraction could give an item, with the title as text and an
      anchor carrying the title and the link when there is a link. */
  function HeadingFor(item: ListingItem): Heading {
    match item.link
    case Some(href) => Heading(item.title, Some(Anchor(item.title, href)))
    case None => Heading(item.title, None)
  }

  /** Every item the extraction can produce comes back unchanged when it is
      rendered as a heading and extracted again. */
  lemma ItemOfHeadingFor(item: ListingItem)
    requires Text.IsTrimmed(item.title)
    ensures ItemOf(HeadingFor(item)) == item
  {
  }

  /** `HeadingFor` applied to every item, in order (witness only). */
  function RenderJobs(jobs: seq<ListingItem>): (headings: seq<Heading>)
    ensures |headings| == |jobs|
    ensures forall i :: 0 <= i < |jobs| ==> headings[i] == HeadingFor(jobs[i])
  {
    if |jobs| == 0 then [] else [HeadingFor(jobs[0])] + RenderJobs(jobs[1..])
  }

  /** Round trip through the witness renderer: extracting headings rendered
      from extracted jobs gives back the same jobs. */
  lemma ExtractRenderRoundTrip(headings: seq<Heading>)
    ensures ExtractJobs(RenderJobs(ExtractJobs(headings))) == ExtractJobs(headings)
  {
    var jobs := ExtractJobs(headings);
    var again := ExtractJobs(RenderJobs(jobs));
    forall i | 0 <= i < |jobs|
      ensures again[i] == jobs[i]
    {
      ItemOfHeadingFor(jobs[i]);
    }
  }
}
