/** The extraction callback run inside the listing page: every list item is
    parsed into a candidate, and the candidates whose title mentions a
    recommendation are kept, in listing order. */
module Listing {
  import opened Wrappers
  import opened JsText
  import opened Records

  /** The suffix GitHub appends to an issue's accessible label. */
  const StatusDelimiter := ": Status:"

  /** The two alternatives of the selection pattern /自荐|推荐/. */
  const SelfRecommended := "自荐"
  const Recommended := "推荐"

  /** The title taken from an `aria-label`: the text before the first status
      delimiter, trimmed. */
  function CleanTitle(ariaLabel: string): string
  {
    Trim(BeforeFirst(ariaLabel, StatusDelimiter))
  }

  /** The title is the label cut before the first status delimiter with
      white space cut off both ends, so that it neither starts nor ends with
      white space; a label without the delimiter is only trimmed. */
  lemma CleanTitleSpec(ariaLabel: string)
    ensures exists i :: StripsTo(BeforeFirst(ariaLabel, StatusDelimiter), i, CleanTitle(ariaLabel))
    ensures var t := CleanTitle(ariaLabel);
      t == [] || (!IsTrimmed(t[0]) && !IsTrimmed(t[|t| - 1]))
    ensures !Contains(ariaLabel, StatusDelimiter) ==> CleanTitle(ariaLabel) == Trim(ariaLabel)
  {
    TrimSpec(BeforeFirst(ariaLabel, StatusDelimiter));
    assert CleanTitle(ariaLabel) == Trim(BeforeFirst(ariaLabel, StatusDelimiter));
    if !Contains(ariaLabel, StatusDelimiter) {
      BeforeFirstAbsent(ariaLabel, StatusDelimiter);
    }
  }

  /** The issue number taken from the counter text: trimmed, then every `#`
      deleted. */
  function IssueNumberOf(counter: string): string
  {
    RemoveAll(Trim(counter), '#')
  }

  /** The issue number is the trimmed counter text less its `#` characters:
      no `#` is left, every other character is kept as often as it occurs,
      and the kept characters appear in the order they have in the counter. */
  lemma IssueNumberSpec(counter: string)
    ensures '#' !in IssueNumberOf(counter)
    ensures multiset(IssueNumberOf(counter)) == multiset(Trim(counter))['#' := 0]
    ensures exists idx ::
      KeptInOrder(Trim(counter), IssueNumberOf(counter), idx) && CoversAllBut(Trim(counter), '#', idx)
  {
    RemoveAllSpec(Trim(counter), '#');
    RemoveAllOrder(Trim(counter), '#');
  }

  /** The selection test `/自荐|推荐/.test(title)`. */
  predicate Selected(title: string) {
    Contains(title, SelfRecommended) || Contains(title, Recommended)
  }

  /** All fields of one list item, read in the order the callback reads
      them: label, counter, datetime, then the second anchor. A missing
      ariaLabel, counter or second anchor raises, whatever the title says. */
  function ParseItem(li: ListingItem): (r: Result<Item, Failure>)
    ensures r.Ok? <==> li.ariaLabel.Some? && li.counter.Some? && |li.anchors| >= 2
    ensures li.ariaLabel.None? ==> r == Err(MissingLabel)
    ensures li.ariaLabel.Some? && li.counter.None? ==> r == Err(MissingCounter)
    ensures li.ariaLabel.Some? && li.counter.Some? && |li.anchors| < 2 ==> r == Err(MissingAuthor)
    ensures r.Ok? ==> r.value == Item(CleanTitle(li.ariaLabel.value), IssueNumberOf(li.counter.value),
                                      li.datetime, li.anchors[1], None, None)
  {
    match li.ariaLabel
    case None => Err(MissingLabel)
    case Some(ariaLabel) =>
      var title := CleanTitle(ariaLabel);
      match li.counter
      case None => Err(MissingCounter)
      case Some(counter) =>
        var issueNumber := IssueNumberOf(counter);
        if |li.anchors| < 2 then Err(MissingAuthor)
        else Ok(Item(title, issueNumber, li.datetime, li.anchors[1], None, None))
  }

  /** A list item that parses without raising. */
  predicate WellFormed(li: ListingItem) {
    ParseItem(li).Ok?
  }

  /** One turn of the callback's loop: the item's fields are read, and the
      item is pushed when its title is selected. */
  function Pick(li: ListingItem): Result<seq<Item>, Failure>
  {
    match ParseItem(li)
    case Err(e) => Err(e)
    case Ok(item) => Ok(if Selected(item.title) then [item] else [])
  }

  /** What the callback returns for a listing: the selected candidates in
      order, or the failure of the first item that raises. */
  function Extract(listing: seq<ListingItem>): Result<seq<Item>, Failure>
  {
    if listing == [] then Ok([]) else Then(Pick(listing[0]), Extract(listing[1..]))
  }

  /** Extracting a listing in two parts and joining the results is the same
      as extracting it whole: candidates keep listing order and the earliest
      malformed item decides the failure. */
  lemma {:induction false} ExtractAppend(a: seq<ListingItem>, b: seq<ListingItem>)
    ensures Extract(a + b) == Then(Extract(a), Extract(b))
  {
    if a == [] {
      assert a + b == b;
      if Extract(b).Ok? {
        assert [] + Extract(b).value == Extract(b).value;
      }
    } else {
      assert (a + b)[0] == a[0];
      assert (a + b)[1..] == a[1..] + b;
      ExtractAppend(a[1..], b);
      ThenAssociative(Pick(a[0]), Extract(a[1..]), Extract(b));
    }
  }

  /** Extracting a one-item listing is one turn of the loop. */
  lemma ExtractSingle(li: ListingItem)
    ensures Extract([li]) == Pick(li)
  {
    assert [li][1..] == [];
    assert [li][0] == li;
    if Pick(li).Ok? {
      assert Pick(li).value + [] == Pick(li).value;
    }
  }

  /** Extraction fails exactly when some list item is malformed, even one
      whose title would not have been selected. */
  lemma {:induction false} ExtractFailsIffMalformed(listing: seq<ListingItem>)
    ensures Extract(listing).Err? <==> exists i :: 0 <= i < |listing| && !WellFormed(listing[i])
  {
    if listing != [] {
      ExtractFailsIffMalformed(listing[1..]);
      if exists i :: 0 <= i < |listing[1..]| && !WellFormed(listing[1..][i]) {
        var i :| 0 <= i < |listing[1..]| && !WellFormed(listing[1..][i]);
        assert !WellFormed(listing[i + 1]);
      }
      if exists i :: 0 <= i < |listing| && !WellFormed(listing[i]) {
        var i :| 0 <= i < |listing| && !WellFormed(listing[i]);
        if i > 0 {
          assert !WellFormed(listing[1..][i - 1]);
        }
      }
    }
  }

  /** Every candidate is a parsed list item with a selected title, and every
      list item whose parsed title is selected is among the candidates. */
  lemma {:induction false} ExtractSelectsExactly(listing: seq<ListingItem>)
    requires Extract(listing).Ok?
    ensures forall c :: c in Extract(listing).value ==>
      Selected(c.title) && exists i :: 0 <= i < |listing| && ParseItem(listing[i]) == Ok(c)
    ensures forall i :: 0 <= i < |listing| ==>
      WellFormed(listing[i]) &&
      (Selected(ParseItem(listing[i]).value.title) ==> ParseItem(listing[i]).value in Extract(listing).value)
  {
    if listing != [] {
      var head, rest := Pick(listing[0]), Extract(listing[1..]);
      assert head.Ok? && rest.Ok?;
      var all := Extract(listing).value;
      assert all == head.value + rest.value;
      ExtractSelectsExactly(listing[1..]);
      forall c | c in all
        ensures Selected(c.title) && exists i :: 0 <= i < |listing| && ParseItem(listing[i]) == Ok(c)
      {
        if c in rest.value {
          var i :| 0 <= i < |listing[1..]| && ParseItem(listing[1..][i]) == Ok(c);
          assert ParseItem(listing[i + 1]) == Ok(c);
        } else {
          assert c in head.value;
          assert ParseItem(listing[0]) == Ok(c);
        }
      }
      forall i | 0 <= i < |listing|
        ensures WellFormed(listing[i]) &&
          (Selected(ParseItem(listing[i]).value.title) ==> ParseItem(listing[i]).value in all)
      {
        if i > 0 {
          assert listing[i] == listing[1..][i - 1];
        }
      }
    }
  }

  /** Of the titles "自荐: 我的项目", "推荐大家" and "无关标题", the first two
      pass the selection test and the third does not. */
  lemma SelectionExample()
    ensures Selected("自荐: 我的项目")
    ensures Selected("推荐大家")
    ensures !Selected("无关标题")
  {
    assert "推荐大家"[..2] == Recommended;
    var other := "无关标题";
    assert other[..2][0] != SelfRecommended[0] && other[..2][0] != Recommended[0];
    assert other[1..][..2][0] != SelfRecommended[0] && other[1..][..2][0] != Recommended[0];
    assert other[2..][..2][0] != SelfRecommended[0] && other[2..][..2][0] != Recommended[0];
    assert other[1..][1..] == other[2..];
  }

  /** The extraction callback: walks the list items in order, reads every
      field of each, and pushes the selected ones onto the result. */
  method ExtractCandidates(listing: seq<ListingItem>) returns (r: Result<seq<Item>, Failure>)
    ensures r == Extract(listing)
  {
    var issues: seq<Item> := [];
    var i := 0;
    while i < |listing|
      invariant 0 <= i <= |listing|
      invariant Extract(listing[..i]) == Ok(issues)
    {
      var li := listing[i];
      ExtractAppend(listing[..i], [li]);
      ExtractSingle(li);
      assert listing[..i + 1] == listing[..i] + [li];
      var parsed := ParseItem(li);
      if parsed.Err? {
        ExtractFailsFrom(listing, i + 1, parsed.error);
        return Err(parsed.error);
      }
      var item := parsed.value;
      if Selected(item.title) {
        issues := issues + [item];
      } else {
        assert issues + [] == issues;
      }
      i := i + 1;
    }
    assert listing[..i] == listing;
    r := Ok(issues);
  }

  /** A failure in the first `n` items is the failure of the whole listing. */
  lemma ExtractFailsFrom(listing: seq<ListingItem>, n: nat, e: Failure)
    requires n <= |listing|
    requires Extract(listing[..n]) == Err(e)
    ensures Extract(listing) == Err(e)
  {
    ExtractAppend(listing[..n], listing[n..]);
    assert listing[..n] + listing[n..] == listing;
  }
}
