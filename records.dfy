/** The values the crawler reads and writes. */
module Records {
  import opened Wrappers

  /** One `li[role="listitem"]` of the rendered issue list, reduced to what the
      extraction callback reads from it: the `aria-label` attribute (absent
      when the element has none), the text of the number counter element
      (absent when there is no such element), the `datetime` attribute of the
      `relative-time` element (absent when either is missing) and the text of
      every anchor in the item, in document order. */
  datatype ListingItem = ListingItem(
    ariaLabel: Option<string>,
    counter: Option<string>,
    datetime: Option<string>,
    anchors: seq<string>)

  /** An issue record as kept in the store. `content` and `html` are absent
      until the detail page of the issue has been read. */
  datatype Item = Item(
    title: string,
    issueNumber: string,
    datetime: Option<string>,
    author: string,
    content: Option<string>,
    html: Option<string>)

  /** The `.markdown-body` element of a detail page: its text content and its
      outer markup. */
  datatype Body = Body(text: string, markup: string)

  /** What aborts a crawl. `ListingUnavailable` is the wait for the first
      list item timing out on an issue list that shows none. The next three are the TypeErrors the extraction
      callback raises on a listing item lacking an `aria-label`, a number
      counter or a second anchor; `PageUnavailable` is a navigation or
      selector wait that did not succeed; `MissingBody` is reading
      `outerHTML` of a detail page that has no `.markdown-body`. */
  datatype Failure =
    | ListingUnavailable
    | MissingLabel
    | MissingCounter
    | MissingAuthor
    | PageUnavailable(issueNumber: string)
    | MissingBody(issueNumber: string)

  /** Sequencing of two steps that each yield a run of items: the first
      failure wins, otherwise the runs are concatenated. */
  function Then(first: Result<seq<Item>, Failure>, second: Result<seq<Item>, Failure>): Result<seq<Item>, Failure>
  {
    match first
    case Err(e) => Err(e)
    case Ok(xs) =>
      match second
      case Err(e) => Err(e)
      case Ok(ys) => Ok(xs + ys)
  }

  lemma ThenAssociative(x: Result<seq<Item>, Failure>, y: Result<seq<Item>, Failure>, z: Result<seq<Item>, Failure>)
    ensures Then(Then(x, y), z) == Then(x, Then(y, z))
  {
    if x.Ok? && y.Ok? && z.Ok? {
      assert (x.value + y.value) + z.value == x.value + (y.value + z.value);
    }
  }
}
