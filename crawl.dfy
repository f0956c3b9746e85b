/** The crawl as a whole: the stored collection is loaded, the listing is
    extracted, the candidates already stored are filtered out, the new ones
    get their details, and the merged collection is written back, once, at
    the very end. */
module Crawl {
  import opened Wrappers
  import opened Records
  import opened Listing
  import opened Dedup
  import opened Details

  /** The store document. `None` is a document that is missing or cannot be
      parsed; `Some` holds the collection it parses to. */
  class Store {
    var document: Option<seq<Item>>

    constructor (document: Option<seq<Item>>)
      ensures this.document == document
    {
      this.document := document;
    }

    /** `loadExistingIssues`: the stored collection, or an empty one when the
        document cannot be read. */
    method Load() returns (items: seq<Item>)
      ensures document.Some? ==> items == document.value
      ensures document.None? ==> items == []
    {
      items := if document.Some? then document.value else [];
    }

    /** `saveIssues`: the document is overwritten with the collection. */
    method Save(items: seq<Item>)
      modifies this
      ensures document == Some(items)
    {
      document := Some(items);
    }
  }

  /** The collection a document loads as. */
  function Loaded(document: Option<seq<Item>>): seq<Item>
  {
    match document
    case Some(items) => items
    case None => []
  }

  /** What a successful crawl produces: the new items it returns and the
      collection it writes. */
  datatype Harvest = Harvest(added: seq<Item>, saved: seq<Item>)

  /** The crawl, from the document it starts with, the listing page and the
      issue pages: the first failure aborts it before anything is written.
      A listing with no list item never gets past the wait for one. */
  function Run(document: Option<seq<Item>>, listing: seq<ListingItem>, pages: Pages): Result<Harvest, Failure>
  {
    var existing := Loaded(document);
    if listing == [] then Err(ListingUnavailable) else
    match Extract(listing)
    case Err(e) => Err(e)
    case Ok(candidates) =>
      match FillAll(Unseen(candidates, Titles(existing)), pages)
      case Err(e) => Err(e)
      case Ok(added) => Ok(Harvest(added, Merge(existing, added)))
  }

  /** `crawlWeeklyIssues`. The store is written once, after the detail loop
      has finished; on any failure the store is left as it was. */
  method CrawlWeeklyIssues(store: Store, listing: seq<ListingItem>, pages: Pages)
    returns (r: Result<seq<Item>, Failure>)
    modifies store
    ensures r.Ok? <==> Run(old(store.document), listing, pages).Ok?
    ensures r.Ok? ==> r.value == Run(old(store.document), listing, pages).value.added
    ensures r.Ok? ==> store.document == Some(Run(old(store.document), listing, pages).value.saved)
    ensures r.Err? ==> r == Err(Run(old(store.document), listing, pages).error)
    ensures r.Err? ==> store.document == old(store.document)
  {
    var existing := store.Load();
    var existingTitles := Titles(existing);
    if listing == [] {
      return Err(ListingUnavailable);
    }
    var candidates := ExtractCandidates(listing);
    if candidates.Err? {
      return Err(candidates.error);
    }
    var unique := Unseen(candidates.value, existingTitles);
    var batch := new Item[|unique|](i requires 0 <= i < |unique| => unique[i]);
    assert batch[..] == unique;
    var filled, failure := FillDetails(batch, pages);
    if failure.Some? {
      return Err(failure.value);
    }
    store.Save(Merge(existing, batch[..]));
    r := Ok(batch[..]);
  }

  /** A successful crawl writes the stored collection, unchanged, followed by
      the items it returns. */
  lemma RunMerges(document: Option<seq<Item>>, listing: seq<ListingItem>, pages: Pages)
    requires Run(document, listing, pages).Ok?
    ensures var h := Run(document, listing, pages).value;
      && |h.saved| == |Loaded(document)| + |h.added|
      && h.saved[..|Loaded(document)|] == Loaded(document)
      && h.saved[|Loaded(document)|..] == h.added
  {
  }

  /** Each item a successful crawl returns is a selected candidate of the
      listing whose title was not stored, filled from its issue page; and
      every such candidate is returned, in listing order. */
  lemma RunAddsNewCandidates(document: Option<seq<Item>>, listing: seq<ListingItem>, pages: Pages)
    requires Run(document, listing, pages).Ok?
    ensures Extract(listing).Ok?
    ensures var unique := Unseen(Extract(listing).value, Titles(Loaded(document)));
      var added := Run(document, listing, pages).value.added;
      && |added| == |unique|
      && (forall i :: 0 <= i < |added| ==> FilledFrom(unique[i], added[i], pages))
      && (forall i :: 0 <= i < |added| ==>
            Selected(added[i].title) && added[i].title !in Titles(Loaded(document)))
  {
    var unique := Unseen(Extract(listing).value, Titles(Loaded(document)));
    var added := Run(document, listing, pages).value.added;
    FillAllSpec(unique, pages);
    UnseenSpec(Extract(listing).value, Titles(Loaded(document)));
    ExtractSelectsExactly(listing);
    forall i | 0 <= i < |added|
      ensures Selected(added[i].title) && added[i].title !in Titles(Loaded(document))
    {
      assert FilledFrom(unique[i], added[i], pages);
      assert unique[i] in unique;
    }
  }

  /** A crawl fails when any list item lacks its label, counter or second
      anchor, whether or not its title would have been selected; nothing is
      then written. */
  lemma RunFailsOnMalformedItem(document: Option<seq<Item>>, listing: seq<ListingItem>, pages: Pages, i: nat)
    requires i < |listing| && !WellFormed(listing[i])
    ensures Run(document, listing, pages).Err?
  {
    ExtractFailsIffMalformed(listing);
  }

  /** A crawl fails when the page of any new candidate is unavailable or has
      no body, even when all the others load; nothing is then written. */
  lemma RunFailsOnUnavailablePage(document: Option<seq<Item>>, listing: seq<ListingItem>, pages: Pages, c: Item)
    requires Extract(listing).Ok? && c in Extract(listing).value
    requires c.title !in Titles(Loaded(document)) && !Available(c, pages)
    ensures Run(document, listing, pages).Err?
  {
    var unique := Unseen(Extract(listing).value, Titles(Loaded(document)));
    UnseenSpec(Extract(listing).value, Titles(Loaded(document)));
    FillAllSpec(unique, pages);
    var k :| 0 <= k < |unique| && unique[k] == c;
  }

  /** Running the crawl again on what it wrote, against the same listing and
      pages, adds nothing and writes the same collection. */
  lemma RunIdempotent(document: Option<seq<Item>>, listing: seq<ListingItem>, pages: Pages)
    requires Run(document, listing, pages).Ok?
    ensures var h := Run(document, listing, pages).value;
      Run(Some(h.saved), listing, pages) == Ok(Harvest([], h.saved))
  {
    var h := Run(document, listing, pages).value;
    var existing := Loaded(document);
    var unique := Unseen(Extract(listing).value, Titles(existing));
    FillAllSpec(unique, pages);
    UnseenAfterMerge(existing, Extract(listing).value, h.added);
    assert h.saved + [] == h.saved;
  }

  /** An issue list showing no list item fails the crawl, so whatever the
      document holds, nothing is written over it. */
  lemma RunFailsOnEmptyListing(document: Option<seq<Item>>, pages: Pages)
    ensures Run(document, [], pages) == Err(ListingUnavailable)
  {
  }

  /** An unreadable document starts the crawl from an empty collection. */
  lemma RunFromMissingDocument(listing: seq<ListingItem>, pages: Pages)
    ensures Run(None, listing, pages) == Run(Some([]), listing, pages)
  {
  }

  /** The dedup step does not look inside the batch: a listing that shows
      the same selected, new item twice gets it written twice, and the
      stored titles are then no longer distinct. */
  lemma RunKeepsRepeatedTitle(document: Option<seq<Item>>, li: ListingItem, pages: Pages)
    requires WellFormed(li) && Selected(ParseItem(li).value.title)
    requires ParseItem(li).value.title !in Titles(Loaded(document))
    requires Available(ParseItem(li).value, pages)
    ensures Run(document, [li, li], pages).Ok?
    ensures !UniqueTitles(Run(document, [li, li], pages).value.saved)
  {
    var x := ParseItem(li).value;
    assert Extract([li, li]) == Ok([x, x]) by {
      ExtractAppend([li], [li]);
      ExtractSingle(li);
      assert [li] + [li] == [li, li];
      assert Pick(li) == Ok([x]);
      assert [x] + [x] == [x, x];
    }
    var existing := Loaded(document);
    assert Unseen([x, x], Titles(existing)) == [x, x] by {
      UnseenAllNew([x, x], Titles(existing));
    }
    var y := Fill(x, pages).value;
    assert FillAll([x, x], pages) == Ok([y, y]) by {
      assert [x, x][1..] == [x] && [x][1..] == [];
      assert FillStep(x, pages) == Ok([y]);
      assert FillAll([], pages) == Ok([]);
      assert [y] + [] == [y];
      assert FillAll([x], pages) == Then(FillStep(x, pages), FillAll([], pages));
      assert FillAll([x], pages) == Ok([y]);
      assert FillAll([x, x], pages) == Then(FillStep(x, pages), FillAll([x], pages));
      assert [y] + [y] == [y, y];
    }
    var saved := Merge(existing, [y, y]);
    assert Run(document, [li, li], pages) == Ok(Harvest([y, y], saved));
    assert saved[|existing|] == y && saved[|existing| + 1] == y;
  }
}
