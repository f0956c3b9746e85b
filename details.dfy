/** The detail loop: for every new item, in order, its issue page is opened
    and the `.markdown-body` of the issue container is read into the item's
    `content` (trimmed text) and `html` (outer markup), in place. */
module Details {
  import opened Wrappers
  import opened JsText
  import opened Records

  /** What the browser shows at each issue page, by issue number. A number
      that is not a key is a page whose navigation or container wait does not
      succeed; `None` is a container without a `.markdown-body`. */
  type Pages = map<string, Option<Body>>

  /** The page of `item` loads and has a body. */
  predicate Available(item: Item, pages: Pages) {
    item.issueNumber in pages && pages[item.issueNumber].Some?
  }

  /** `after` is `before` with the body of its page read into it: the listing
      fields are unchanged, `content` is the trimmed body text and `html` is
      the body markup. */
  predicate FilledFrom(before: Item, after: Item, pages: Pages) {
    && Available(before, pages)
    && after.title == before.title
    && after.issueNumber == before.issueNumber
    && after.datetime == before.datetime
    && after.author == before.author
    && after.content == Some(Trim(pages[before.issueNumber].value.text))
    && after.html == Some(pages[before.issueNumber].value.markup)
  }

  /** One turn of the loop on one item. */
  function Fill(item: Item, pages: Pages): Result<Item, Failure>
  {
    if item.issueNumber !in pages then Err(PageUnavailable(item.issueNumber))
    else match pages[item.issueNumber]
      case None => Err(MissingBody(item.issueNumber))
      case Some(body) => Ok(item.(content := Some(Trim(body.text)), html := Some(body.markup)))
  }

  /** One turn, as a run of items for sequencing with `Then`. */
  function FillStep(item: Item, pages: Pages): Result<seq<Item>, Failure>
  {
    match Fill(item, pages)
    case Err(e) => Err(e)
    case Ok(x) => Ok([x])
  }

  /** The whole loop: every item filled, or the failure of the first item
      whose page is unavailable or lacks a body. */
  function FillAll(items: seq<Item>, pages: Pages): Result<seq<Item>, Failure>
  {
    if items == [] then Ok([]) else Then(FillStep(items[0], pages), FillAll(items[1..], pages))
  }

  /** A turn fails exactly when the page is unavailable or has no body, and
      otherwise fills the item from its page. */
  lemma FillSpec(item: Item, pages: Pages)
    ensures Fill(item, pages).Ok? <==> Available(item, pages)
    ensures Fill(item, pages).Ok? ==> FilledFrom(item, Fill(item, pages).value, pages)
    ensures item.issueNumber !in pages ==> Fill(item, pages) == Err(PageUnavailable(item.issueNumber))
    ensures item.issueNumber in pages && pages[item.issueNumber].None? ==>
      Fill(item, pages) == Err(MissingBody(item.issueNumber))
  {
  }

  /** The loop succeeds exactly when every page is available, and then fills
      every item from its page, one for one and in order; when it fails, the
      failure is that of the first unavailable item. */
  lemma {:induction false} FillAllSpec(items: seq<Item>, pages: Pages)
    ensures FillAll(items, pages).Ok? <==> forall i :: 0 <= i < |items| ==> Available(items[i], pages)
    ensures FillAll(items, pages).Ok? ==>
      |FillAll(items, pages).value| == |items| &&
      forall i :: 0 <= i < |items| ==> FilledFrom(items[i], FillAll(items, pages).value[i], pages)
    ensures FillAll(items, pages).Err? ==>
      exists i :: 0 <= i < |items| && !Available(items[i], pages) &&
        (forall j :: 0 <= j < i ==> Available(items[j], pages)) &&
        Fill(items[i], pages) == Err(FillAll(items, pages).error)
  {
    if items != [] {
      var rest := items[1..];
      FillAllSpec(rest, pages);
      FillSpec(items[0], pages);
      forall i | 0 <= i < |rest| ensures rest[i] == items[i + 1] { }
      if FillAll(items, pages).Ok? {
        var r := FillAll(items, pages).value;
        assert r == [Fill(items[0], pages).value] + FillAll(rest, pages).value;
        forall i | 0 <= i < |items| ensures FilledFrom(items[i], r[i], pages) {
          if i > 0 {
            assert r[i] == FillAll(rest, pages).value[i - 1];
          }
        }
      } else if Available(items[0], pages) {
        var k :| 0 <= k < |rest| && !Available(rest[k], pages) &&
          (forall j :: 0 <= j < k ==> Available(rest[j], pages)) &&
          Fill(rest[k], pages) == Err(FillAll(rest, pages).error);
        assert forall j :: 0 <= j < k + 1 ==> Available(items[j], pages) by {
          forall j | 0 <= j < k + 1 ensures Available(items[j], pages) {
            if j > 0 {
              assert items[j] == rest[j - 1];
            }
          }
        }
        assert !Available(items[k + 1], pages);
      } else {
        assert !Available(items[0], pages);
      }
    }
  }

  lemma {:induction false} FillAllAppend(a: seq<Item>, b: seq<Item>, pages: Pages)
    ensures FillAll(a + b, pages) == Then(FillAll(a, pages), FillAll(b, pages))
  {
    if a == [] {
      assert a + b == b;
      if FillAll(b, pages).Ok? {
        assert [] + FillAll(b, pages).value == FillAll(b, pages).value;
      }
    } else {
      assert (a + b)[0] == a[0];
      assert (a + b)[1..] == a[1..] + b;
      FillAllAppend(a[1..], b, pages);
      ThenAssociative(FillStep(a[0], pages), FillAll(a[1..], pages), FillAll(b, pages));
    }
  }

  /** The detail loop over the batch of new items, which it updates in place.
      It stops at the first item whose page fails: the items before it are
      filled, that item and the ones after it are as they were. */
  method FillDetails(batch: array<Item>, pages: Pages) returns (filled: nat, failure: Option<Failure>)
    modifies batch
    ensures filled <= batch.Length
    ensures FillAll(old(batch[..filled]), pages) == Ok(batch[..filled])
    ensures batch[filled..] == old(batch[filled..])
    ensures failure.None? ==> filled == batch.Length && FillAll(old(batch[..]), pages) == Ok(batch[..])
    ensures failure.Some? ==> filled < batch.Length && FillAll(old(batch[..]), pages) == Err(failure.value)
    ensures failure.Some? ==> Fill(old(batch[filled]), pages) == Err(failure.value)
  {
    ghost var before := batch[..];
    filled := 0;
    while filled < batch.Length
      invariant filled <= batch.Length
      invariant FillAll(before[..filled], pages) == Ok(batch[..filled])
      invariant batch[filled..] == before[filled..]
    {
      var item := batch[filled];
      assert item == before[filled];
      FillAllAppend(before[..filled], [item], pages);
      assert before[..filled + 1] == before[..filled] + [item];
      assert [item][1..] == [];
      if item.issueNumber !in pages {
        failure := Some(PageUnavailable(item.issueNumber));
        FillFailsFrom(before, filled + 1, pages);
        return;
      }
      var body := pages[item.issueNumber];
      if body.None? {
        failure := Some(MissingBody(item.issueNumber));
        FillFailsFrom(before, filled + 1, pages);
        return;
      }
      var content := Trim(body.value.text);
      var html := body.value.markup;
      ghost var done := batch[..filled];
      batch[filled] := item.(content := Some(content), html := Some(html));
      assert FillAll([item], pages) == Then(FillStep(item, pages), Ok([]));
      assert [batch[filled]] + [] == [batch[filled]];
      assert batch[..filled + 1] == done + [batch[filled]];
      filled := filled + 1;
    }
    assert before[..filled] == before && batch[..filled] == batch[..];
    failure := None;
  }

  /** A failure among the first `n` items is the failure of the whole loop. */
  lemma FillFailsFrom(items: seq<Item>, n: nat, pages: Pages)
    requires n <= |items|
    requires FillAll(items[..n], pages).Err?
    ensures FillAll(items, pages) == FillAll(items[..n], pages)
  {
    FillAllAppend(items[..n], items[n..], pages);
    assert items[..n] + items[n..] == items;
  }
}
