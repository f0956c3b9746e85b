# Weekly-issue crawler: a verified model of its data pipeline

`crawler.js` harvests the self-recommendation posts ("自荐" / "推荐") from
the issue list of a weekly curated newsletter, keeps only those whose title
is not already in the local store, reads the body of each new issue from
its own page, and writes the stored items followed by the new ones back to
the store. This project models that pipeline in Dafny, with the browser and
the store replaced by their results:

- the rendered listing is a sequence of `ListingItem`s. Each holds the
  `aria-label`, the number counter text, the `relative-time` datetime and
  the anchor texts. The label and counter are optional, because the page
  may lack them;
- the issue pages are a map from issue number to an optional `Body` (the
  `.markdown-body` text and outer markup). A missing key is a page whose
  navigation or container wait fails. `None` is a container without a body;
- the store is a `Store` object whose `document` is `None` when the file is
  missing or unreadable.

Modules, one per file:

- `JsText` (`js_text.dfy`): the JavaScript string operations used. These
  are `trim()` with ECMAScript's white space and line terminators,
  `split(d)[0]`, `replace(/#/g, "")` and the literal-alternative regular
  expression test.
- `Records` (`records.dfy`): listing items, stored items, bodies and the
  failures that abort a crawl.
- `Listing` (`listing.dfy`): the extraction callback, as a loop method proved
  against the function `Extract`.
- `Dedup` (`dedup.dfy`): the title set, the filter and the merge.
- `Details` (`details.dfy`): the detail loop, as a method that updates an
  array of items in place, proved against the function `FillAll`.
- `Crawl` (`crawl.dfy`): the store and the whole crawl. `CrawlWeeklyIssues`
  is proved against the function `Run`, and the lemmas about `Run` state
  the crawl's guarantees.

The model follows what the code does, in three places where that is less
than one might expect of it:

- Failures are not isolated per item. An issue list with no list item
  fails at the wait for one, so nothing is written. A list item without a label, a
  counter or a second anchor aborts the whole extraction, even when its
  title would not be selected. An issue page that fails to load, or that
  has no body, aborts the whole crawl. The store is written only after the
  detail loop, so nothing is written then. The page code guards the read of
  `content` against a missing body but not the read of `html`.
- The issue number is the trimmed counter text with only its `#`
  characters removed, not all non-digit characters. Because the removal
  comes after the trim, `"# 12"` gives `" 12"`.
- Titles are not kept unique. The filter compares each candidate with the
  titles stored before the run, not with the other candidates of the same
  batch. A listing that shows a new title twice gets it stored twice
  (`Crawl.RunKeepsRepeatedTitle`).

## Model

| member | source | states |
|---|---|---|
| `JsText.TrimStartSpec` | crawler.js:68 | the leading part `trim` removes is made only of white space, and what remains does not start with white space |
| `JsText.TrimEndSpec` | crawler.js:68 | the trailing part `trim` removes is made only of white space, and what remains does not end with white space |
| `JsText.TrimSpec` | crawler.js:68 | `trim()` leaves an infix of its input with only white space cut on both sides, and the infix neither starts nor ends with white space |
| `JsText.TrimIdempotent` | crawler.js:68 | trimming a trimmed text changes nothing |
| `JsText.NothingToTrim` | crawler.js:68 | a text without white space at either end is its own trim |
| `JsText.ContainsOccurs` | crawler.js:76-78 | the substring test holds exactly when the pattern occurs at some position |
| `JsText.BeforeFirstSpec` | crawler.js:68 | `split(d)[0]` is the prefix before the first occurrence of `d`: `d` occurs nowhere before it, and it occurs right after it unless the prefix is the whole text |
| `JsText.BeforeFirstAbsent` | crawler.js:68 | when the delimiter does not occur, `split(d)[0]` is the whole text |
| `JsText.RemoveAllSpec` | crawler.js:70 | `replace(/#/g, "")` leaves no `#`, keeps every other character as often as it occurs, and leaves a text without `#` unchanged |
| `JsText.RemoveAllOrder` | crawler.js:70 | `replace(/#/g, "")` is a subsequence of its input, at strictly increasing positions, that includes every position not holding `#` |
| `JsText.RemoveAllAppend` | crawler.js:70 | deleting a character commutes with concatenation, so the kept characters stay in order |
| `Listing.CleanTitleSpec` | crawler.js:68 | the title is the label's part before the first `": Status:"` with only white space cut from its ends, and it neither starts nor ends with white space; a label without the delimiter is just trimmed |
| `Listing.IssueNumberSpec` | crawler.js:70 | the issue number has no `#`; it is the trimmed counter text read left to right with the `#` positions skipped, so every other character is kept, as often as it occurs and in order |
| `Listing.ParseItem` | crawler.js:68-74 | a list item parses exactly when it has a label, a counter and at least two anchors; the first missing one, in the order label, counter, anchor, names the failure; the author is the second anchor's text and `content`/`html` are absent |
| `Listing.ExtractSingle` | crawler.js:66-86 | one turn of the loop: a malformed item raises; otherwise the parsed item is pushed exactly when its title is selected |
| `Listing.ExtractAppend` | crawler.js:66-86 | extracting two parts of a listing and joining the results equals extracting the whole: candidates keep listing order, and the earliest failure wins |
| `Listing.ExtractFailsIffMalformed` | crawler.js:66-78 | extraction fails exactly when some list item is malformed, selected or not |
| `Listing.ExtractSelectsExactly` | crawler.js:76-86 | every candidate is a parsed list item whose title is selected; every list item whose parsed title is selected is a candidate |
| `Listing.SelectionExample` | crawler.js:76-78 | "自荐: 我的项目" and "推荐大家" pass the selection test; "无关标题" does not |
| `Listing.ExtractCandidates` | crawler.js:59-90 | the extraction loop returns exactly `Extract` of the listing |
| `Listing.ExtractFailsFrom` | crawler.js:66-74 | an exception in the first items aborts extraction of the whole listing with that failure |
| `Dedup.Titles` | crawler.js:48 | the title set holds the title of every stored item and nothing else |
| `Dedup.UnseenSpec` | crawler.js:95 | the filter keeps only candidates whose title is not stored; it drops no candidate with a new title; it never lengthens the batch |
| `Dedup.UnseenAppend` | crawler.js:95 | filtering commutes with concatenation, so kept candidates stay in candidate order |
| `Dedup.UnseenAllNew` | crawler.js:95 | a batch whose titles are all new passes unchanged, repeated titles included |
| `Dedup.UnseenAllSeen` | crawler.js:95 | a batch whose titles are all stored is filtered to nothing |
| `Dedup.UnseenKeepsUnique` | crawler.js:95 | filtering a batch of distinct titles keeps them distinct |
| `Dedup.MergeSpec` | crawler.js:121 | the merged collection is the stored one, untouched, followed by the new items; its length is the sum and its titles are the union |
| `Dedup.MergeKeepsUnique` | crawler.js:121 | if the store and the batch each have distinct titles, the merged collection does too |
| `Dedup.UnseenAfterMerge` | crawler.js:95-121 | filtering the same candidates again, against the title set (built as at line 48) of the merged collection, keeps nothing, even when the new items have been filled in since |
| `Dedup.BatchRepeatSurvives` | crawler.js:95 | two candidates with the same new title both pass the filter, and the merged collection then holds that title twice |
| `Dedup.DedupExample` | crawler.js:95 | with "自荐: 我的项目" stored, the candidates "自荐: 我的项目" and "推荐大家" are filtered to just "推荐大家" |
| `Details.FillSpec` | crawler.js:107-114 | one issue fails exactly when its page is unavailable or has no body, with that failure; otherwise it gets the trimmed body text as `content`, the markup as `html`, and its other fields unchanged |
| `Details.FillAllSpec` | crawler.js:99-118 | the detail loop succeeds exactly when every page is available; it then fills every item from its page, one for one and in order; otherwise it fails with the failure of the first unavailable item |
| `Details.FillAllAppend` | crawler.js:99-118 | running the loop over two parts equals running it over the whole: the first failure wins |
| `Details.FillDetails` | crawler.js:99-118 | the in-place loop leaves the batch as `FillAll` gives it when every page is available; on a failure, the loop stops at an item whose page is unavailable or has no body, with that failure; the items before it are filled as `FillAll` fills them and every item from it on is untouched |
| `Details.FillFailsFrom` | crawler.js:99-118 | a failure among the first items is the failure of the whole loop |
| `Crawl.Store.Load` | crawler.js:7-14 | the stored collection is loaded, or an empty one when the document cannot be read |
| `Crawl.Store.Save` | crawler.js:16-19 | the document is overwritten with the whole collection |
| `Crawl.CrawlWeeklyIssues` | crawler.js:47-124 | the crawl returns the new items and writes the merged collection, as `Run` gives them; on any failure, an empty listing included, it returns that failure and the store is unchanged |
| `Crawl.RunMerges` | crawler.js:121-122 | a successful crawl writes the stored collection, unchanged, followed by the items it returns |
| `Crawl.RunAddsNewCandidates` | crawler.js:95-121 | a successful crawl returns one item per candidate whose title was not stored, in listing order; each is filled from its issue page, has a selected title, and has a title that was not stored |
| `Crawl.RunFailsOnMalformedItem` | crawler.js:66-78 | one malformed list item, even an unselected one, makes the crawl fail |
| `Crawl.RunFailsOnUnavailablePage` | crawler.js:99-122 | one new candidate whose page is unavailable or has no body makes the crawl fail, however many other pages load |
| `Crawl.RunIdempotent` | crawler.js:48-121 | a second crawl started from what the first wrote, with the same listing and pages, adds nothing and writes the same collection |
| `Crawl.RunFailsOnEmptyListing` | crawler.js:45-56 | an issue list with no list item fails the crawl before extraction, so nothing is written |
| `Crawl.RunFromMissingDocument` | crawler.js:7-14 | a missing or unreadable document gives the same crawl as an empty collection |
| `Crawl.RunKeepsRepeatedTitle` | crawler.js:95-121 | a listing that shows a new, selected item twice gets it written twice, so the stored titles are no longer distinct |

## Left out

- Browser setup is not modelled: the launch options, viewport, default
  timeouts, the listing navigation and the console relay (crawler.js:22-58).
  Their results are inputs. Of the listing wait at crawler.js:56 only its
  outcome is kept: a listing with no list item is the failure
  `ListingUnavailable`. A navigation that fails outright aborts the run
  the same way, before the store is touched, and is not a separate case.
- The detail URL `https://github.com/ruanyf/weekly/issues/<issueNumber>`
  is not modelled. The pages are indexed by issue number directly.
- File I/O and JSON are not modelled. The store document is a value, and
  saving then loading returns the saved items unchanged. Three things are
  therefore not captured: a document that parses to something other than
  an array of items, the `undefined` versus `null` distinction for a
  missing datetime, and a failing `writeFile`.
- The one-second delay after each detail page, the logging and `main`'s
  report are not modelled. They do not affect the data.
- `browser.close()` in `finally` is resource cleanup and is not modelled.
- Strings are sequences of Unicode scalar values, while JavaScript uses
  UTF-16 code units. The two agree on every character the crawler inspects
  (`#`, the status delimiter, the CJK selection words and the white space
  set), but not on the length of text outside the Basic Multilingual Plane.
