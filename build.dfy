/**
 * The top level of scripts/build-shows.mjs: parse the shows text, sort the
 * records by date, render them with a twelve-space indent, and splice the
 * listing into index.html and then into shows.html.
 *
 * The three files are parameters and the two written pages are part of the
 * outcome; a failure part-way leaves what was already written in place.
 */
module Build {
  import opened Wrappers
  import opened JsStrings
  import opened Shows
  import opened ShowSort
  import opened Render
  import opened Inject
  import opened Escape

  /** `const indent = '            '`. */
  const Indent: string := "            "

  /** Records the renderer accepts: a month in 1..12 and a date of the parsed shape. */
  predicate Renderable(shows: seq<Show>) {
    forall i :: 0 <= i < |shows| ==> 1 <= shows[i].month <= 12 && DateShape(shows[i].date)
  }

  /** Every record a successful parse returns is well formed, one per block. */
  lemma ParsedWellFormed(text: string)
    requires ParseText(text).Ok?
    ensures forall i :: 0 <= i < |ParseText(text).value| ==> WellFormed(ParseText(text).value[i])
    ensures |ParseText(text).value| == if Trim(text) == [] then 0 else |Blocks(text)|
  {
    if Trim(text) != [] {
      ParseShowsOnePerBlock(Blocks(text));
    }
  }

  /** So the parsed records can be rendered. */
  lemma ParsedRenderable(text: string)
    requires ParseText(text).Ok?
    ensures Renderable(ParseText(text).value)
  {
    ParsedWellFormed(text);
  }

  /** Sorting keeps the records, so it keeps them renderable. */
  lemma SortedRenderable(shows: seq<Show>)
    requires Renderable(shows)
    ensures Renderable(SortByDate(shows))
  {
    var r := SortByDate(shows);
    forall i | 0 <= i < |r| ensures 1 <= r[i].month <= 12 && DateShape(r[i].date) {
      assert r[i] in multiset(r);
      assert r[i] in multiset(shows);
      var j :| 0 <= j < |shows| && shows[j] == r[i];
    }
  }

  /**
   * `showsHtml`: the records sorted by date, each rendered, joined by a blank
   * line. Every `<` in it opens a tag, so it holds no marker comment.
   */
  function ShowsHtml(shows: seq<Show>): (html: string)
    requires Renderable(shows)
    ensures LtOpensTag(html)
  {
    SortedRenderable(shows);
    RenderAllTags(SortByDate(shows), Indent);
    RenderAll(SortByDate(shows), Indent)
  }

  /** How a run of the script ends. */
  datatype Outcome =
    | ParseFailed(error: ParseError)
      // nothing was written
    | IndexMarkersMissing
      // nothing was written
    | ShowsPageMarkersMissing(index: string)
      // index.html was already written with `index`
    | Built(index: string, showsPage: string, count: nat)
      // both pages written; `count` is the number the final log line reports

  /** One run of the script on the shows text and the two pages. */
  function Run(text: string, index: string, showsPage: string): Outcome
  {
    match ParseText(text)
    case Err(e) => ParseFailed(e)
    case Ok(shows) =>
      ParsedRenderable(text);
      var html := ShowsHtml(shows);
      match InjectShows(index, html)
      case Err(_) => IndexMarkersMissing
      case Ok(index') =>
        match InjectShows(showsPage, html)
        case Err(_) => ShowsPageMarkersMissing(index')
        case Ok(showsPage') => Built(index', showsPage', |shows|)
  }

  /**
   * One run as the script is written: `injectShows` goes through `replace`,
   * which expands `$` patterns in the listing.
   */
  function RunAsWritten(text: string, index: string, showsPage: string): Outcome
  {
    match ParseText(text)
    case Err(e) => ParseFailed(e)
    case Ok(shows) =>
      ParsedRenderable(text);
      var html := ShowsHtml(shows);
      match InjectShowsAsWritten(index, html)
      case Err(_) => IndexMarkersMissing
      case Ok(index') =>
        match InjectShowsAsWritten(showsPage, html)
        case Err(_) => ShowsPageMarkersMissing(index')
        case Ok(showsPage') => Built(index', showsPage', |shows|)
  }

  /** The listing a successful parse of `text` yields. */
  function ListingOf(text: string): string
    requires ParseText(text).Ok?
  {
    ParsedRenderable(text);
    ShowsHtml(ParseText(text).value)
  }

  // ---------------------------------------------------------------------
  // Properties
  // ---------------------------------------------------------------------

  /**
   * The run stops at the first failure: a parse error writes nothing, a page
   * missing a marker is an error, and index.html is written before shows.html
   * is looked at.
   */
  lemma RunOutcomes(text: string, index: string, showsPage: string)
    ensures ParseText(text).Err? ==> Run(text, index, showsPage) == ParseFailed(ParseText(text).error)
    ensures ParseText(text).Ok? ==>
      (Run(text, index, showsPage).IndexMarkersMissing? <==>
        (forall i: nat :: !OccursAt(index, ShowsMarkers.open, i)) || (forall i: nat :: !OccursAt(index, ShowsMarkers.close, i)))
    ensures ParseText(text).Ok? && InjectShows(index, ListingOf(text)).Ok? ==>
      (Run(text, index, showsPage).ShowsPageMarkersMissing? <==>
        (forall i: nat :: !OccursAt(showsPage, ShowsMarkers.open, i)) || (forall i: nat :: !OccursAt(showsPage, ShowsMarkers.close, i)))
    ensures Run(text, index, showsPage).ShowsPageMarkersMissing? ==>
      ParseText(text).Ok? && InjectShows(index, ListingOf(text)) == Ok(Run(text, index, showsPage).index)
  {
    if ParseText(text).Ok? {
      SpliceMissing(index, ShowsMarkers, ListingOf(text));
      SpliceMissing(showsPage, ShowsMarkers, ListingOf(text));
    }
  }

  /** `$` expansion never changes whether a page is accepted. */
  lemma AsWrittenAcceptsAlike(file: string, html: string)
    ensures InjectShowsAsWritten(file, html).Err? <==> InjectShows(file, html).Err?
  {
  }

  /**
   * The script as written ends the same way as the literal build: the same
   * kind of outcome and, for a complete build, the same count.
   */
  lemma RunAsWrittenOutcomes(text: string, index: string, showsPage: string)
    ensures RunAsWritten(text, index, showsPage).ParseFailed? <==> Run(text, index, showsPage).ParseFailed?
    ensures RunAsWritten(text, index, showsPage).IndexMarkersMissing? <==> Run(text, index, showsPage).IndexMarkersMissing?
    ensures RunAsWritten(text, index, showsPage).ShowsPageMarkersMissing? <==> Run(text, index, showsPage).ShowsPageMarkersMissing?
    ensures RunAsWritten(text, index, showsPage).Built? <==> Run(text, index, showsPage).Built?
    ensures Run(text, index, showsPage).Built? ==>
      RunAsWritten(text, index, showsPage).count == Run(text, index, showsPage).count
  {
    if ParseText(text).Ok? {
      var html := ListingOf(text);
      AsWrittenAcceptsAlike(index, html);
      AsWrittenAcceptsAlike(showsPage, html);
      if InjectShows(index, html).Ok? {
        var index' := InjectShowsAsWritten(index, html).value;
        AsWrittenAcceptsAlike(showsPage, html);
      }
    }
  }

  /** When the listing holds no `$`, the script as written and the literal build agree exactly. */
  lemma RunAgreesWithoutDollar(text: string, index: string, showsPage: string)
    requires ParseText(text).Ok? && '$' !in ListingOf(text)
    ensures RunAsWritten(text, index, showsPage) == Run(text, index, showsPage)
  {
    var html := ListingOf(text);
    ShowsMarkersAreComments();
    AsWrittenAgrees(index, ShowsMarkers, html);
    AsWrittenAgrees(showsPage, ShowsMarkers, html);
  }

  /** A successful run reports one record per block of the text, and none for a blank text. */
  lemma RunCount(text: string, index: string, showsPage: string)
    requires Run(text, index, showsPage).Built?
    ensures Run(text, index, showsPage).count == if Trim(text) == [] then 0 else |Blocks(text)|
  {
    ParsedWellFormed(text);
  }

  /** Both written pages hold the listing between their markers, framed by newlines. */
  lemma RunWritesListing(text: string, index: string, showsPage: string)
    requires Run(text, index, showsPage).Built?
    ensures Region(index, ShowsMarkers).Some? ==>
      Content(Run(text, index, showsPage).index, ShowsMarkers) == Some(Framed(ListingOf(text)))
    ensures Region(showsPage, ShowsMarkers).Some? ==>
      Content(Run(text, index, showsPage).showsPage, ShowsMarkers) == Some(Framed(ListingOf(text)))
  {
    ShowsMarkersAreComments();
    if Region(index, ShowsMarkers).Some? {
      SpliceThenRead(index, ShowsMarkers, ListingOf(text));
    }
    if Region(showsPage, ShowsMarkers).Some? {
      SpliceThenRead(showsPage, ShowsMarkers, ListingOf(text));
    }
  }

  /** Outside the listing region a page is written back as it was. */
  lemma RunKeepsOutside(text: string, index: string, showsPage: string, i: nat, j: nat)
    requires Run(text, index, showsPage).Built? && Region(index, ShowsMarkers) == Some((i, j))
    ensures ParseText(text).Ok?
    ensures var out := Run(text, index, showsPage).index;
      var end := i + |Replacement(ShowsMarkers, ListingOf(text))|;
      i <= end <= |out| && out[..i] == index[..i] && out[end..] == index[j..]
  {
    BuiltPages(text, index, showsPage);
    PageKeepsOutside(index, ListingOf(text), Run(text, index, showsPage).index, i, j);
  }

  /** The page a splice wrote keeps the text outside the marker region. */
  lemma PageKeepsOutside(page: string, html: string, out: string, i: nat, j: nat)
    requires Splice(page, ShowsMarkers, html) == Ok(out) && Region(page, ShowsMarkers) == Some((i, j))
    ensures var end := i + |Replacement(ShowsMarkers, html)|;
      i <= end <= |out| && out[..i] == page[..i] && out[end..] == page[j..]
  {
    SpliceKeepsOutside(page, ShowsMarkers, html, i, j);
  }

  /** A successful run writes each page with the listing spliced in. */
  lemma BuiltPages(text: string, index: string, showsPage: string)
    requires Run(text, index, showsPage).Built?
    ensures ParseText(text).Ok?
    ensures Splice(index, ShowsMarkers, ListingOf(text)) == Ok(Run(text, index, showsPage).index)
    ensures Splice(showsPage, ShowsMarkers, ListingOf(text)) == Ok(Run(text, index, showsPage).showsPage)
  {
  }

  /** Running the script again on the pages it wrote changes nothing. */
  lemma RunIdempotent(text: string, index: string, showsPage: string)
    requires Run(text, index, showsPage).Built?
    ensures Run(text, Run(text, index, showsPage).index, Run(text, index, showsPage).showsPage)
         == Run(text, index, showsPage)
  {
    var html := ListingOf(text);
    ShowsMarkersAreComments();
    SpliceIdempotent(index, ShowsMarkers, html);
    SpliceIdempotent(showsPage, ShowsMarkers, html);
  }

  /**
   * The listing shows every parsed record once, in chronological order: it is
   * the rendering of a reordering of the records whose dates ascend.
   */
  lemma ListingOrder(shows: seq<Show>) returns (sorted: seq<Show>)
    requires forall i :: 0 <= i < |shows| ==> WellFormed(shows[i])
    ensures Renderable(shows) && Renderable(sorted)
    ensures ShowsHtml(shows) == RenderAll(sorted, Indent)
    ensures multiset(sorted) == multiset(shows)
    ensures forall i, j :: 0 <= i < j < |sorted| ==> ChronoLe(sorted[i], sorted[j])
  {
    sorted := SortByDate(shows);
    SortedRenderable(shows);
    forall i | 0 <= i < |sorted| ensures WellFormed(sorted[i]) {
      assert sorted[i] in multiset(sorted);
      assert sorted[i] in multiset(shows);
      var j :| 0 <= j < |shows| && shows[j] == sorted[i];
    }
    SortedIsChronological(sorted);
  }
}
