/** Deduplication of the extracted candidates against the stored collection,
    keyed by title, and the merge of the new items after the stored ones. */
module Dedup {
  import opened Records

  /** `new Set(existingIssues.map(issue => issue.title))`. */
  function Titles(items: seq<Item>): (ts: set<string>)
    ensures forall it :: it in items ==> it.title in ts
    ensures forall t :: t in ts ==> exists it :: it in items && it.title == t
  {
    set it | it in items :: it.title
  }

  /** `candidates.filter(issue => !existingTitles.has(issue.title))`. */
  function Unseen(candidates: seq<Item>, titles: set<string>): seq<Item>
  {
    if candidates == [] then []
    else if candidates[0].title in titles then Unseen(candidates[1..], titles)
    else [candidates[0]] + Unseen(candidates[1..], titles)
  }

  /** `[...existingIssues, ...uniqueNewIssues]`. */
  function Merge(existing: seq<Item>, added: seq<Item>): seq<Item>
  {
    existing + added
  }

  /** No two items of the collection share a title. */
  predicate UniqueTitles(items: seq<Item>) {
    forall i, j :: 0 <= i < j < |items| ==> items[i].title != items[j].title
  }

  /** The filter keeps exactly the candidates whose title is not a stored
      title: what it keeps is a candidate with a new title, and no candidate
      with a new title is dropped. */
  lemma {:induction false} UnseenSpec(candidates: seq<Item>, titles: set<string>)
    ensures |Unseen(candidates, titles)| <= |candidates|
    ensures forall x :: x in Unseen(candidates, titles) ==> x in candidates && x.title !in titles
    ensures forall c :: c in candidates && c.title !in titles ==> c in Unseen(candidates, titles)
  {
    if candidates != [] {
      UnseenSpec(candidates[1..], titles);
      forall c | c in candidates && c.title !in titles
        ensures c in Unseen(candidates, titles)
      {
        if c != candidates[0] {
          assert c in candidates[1..];
        }
      }
    }
  }

  /** Filtering commutes with concatenation: the kept candidates stay in
      candidate order. */
  lemma {:induction false} UnseenAppend(a: seq<Item>, b: seq<Item>, titles: set<string>)
    ensures Unseen(a + b, titles) == Unseen(a, titles) + Unseen(b, titles)
  {
    if a == [] {
      assert a + b == b;
    } else {
      assert (a + b)[0] == a[0];
      assert (a + b)[1..] == a[1..] + b;
      UnseenAppend(a[1..], b, titles);
    }
  }

  /** Nothing is filtered out of a batch whose titles are all new, even when
      the batch repeats a title. */
  lemma {:induction false} UnseenAllNew(candidates: seq<Item>, titles: set<string>)
    requires forall c :: c in candidates ==> c.title !in titles
    ensures Unseen(candidates, titles) == candidates
  {
    if candidates != [] {
      UnseenAllNew(candidates[1..], titles);
    }
  }

  /** Everything is filtered out of a batch whose titles are all stored. */
  lemma {:induction false} UnseenAllSeen(candidates: seq<Item>, titles: set<string>)
    requires forall c :: c in candidates ==> c.title in titles
    ensures Unseen(candidates, titles) == []
  {
    if candidates != [] {
      UnseenAllSeen(candidates[1..], titles);
    }
  }

  /** Filtering a batch of distinct titles keeps them distinct. */
  lemma {:induction false} UnseenKeepsUnique(candidates: seq<Item>, titles: set<string>)
    requires UniqueTitles(candidates)
    ensures UniqueTitles(Unseen(candidates, titles))
  {
    if candidates != [] {
      var rest := candidates[1..];
      assert UniqueTitles(rest) by {
        forall i, j | 0 <= i < j < |rest| ensures rest[i].title != rest[j].title {
          assert rest[i] == candidates[i + 1] && rest[j] == candidates[j + 1];
        }
      }
      UnseenKeepsUnique(rest, titles);
      UnseenSpec(rest, titles);
      if candidates[0].title !in titles {
        var r := Unseen(rest, titles);
        forall j | 0 <= j < |r| ensures candidates[0].title != r[j].title {
          assert r[j] in rest;
          var k :| 0 <= k < |rest| && rest[k] == r[j];
          assert rest[k] == candidates[k + 1];
        }
        assert Unseen(candidates, titles) == [candidates[0]] + r;
      }
    }
  }

  /** The merged collection is the stored one, untouched, followed by the new
      items: its length is the sum and its titles are the union. */
  lemma MergeSpec(existing: seq<Item>, added: seq<Item>)
    ensures |Merge(existing, added)| == |existing| + |added|
    ensures Merge(existing, added)[..|existing|] == existing
    ensures Merge(existing, added)[|existing|..] == added
    ensures Titles(Merge(existing, added)) == Titles(existing) + Titles(added)
  {
  }

  /** Merging the filtered batch into a collection of distinct titles keeps
      the titles distinct, provided the batch itself had distinct titles. */
  lemma MergeKeepsUnique(existing: seq<Item>, candidates: seq<Item>)
    requires UniqueTitles(existing) && UniqueTitles(candidates)
    ensures UniqueTitles(Merge(existing, Unseen(candidates, Titles(existing))))
  {
    var added := Unseen(candidates, Titles(existing));
    UnseenKeepsUnique(candidates, Titles(existing));
    UnseenSpec(candidates, Titles(existing));
    var m := Merge(existing, added);
    forall i, j | 0 <= i < j < |m| ensures m[i].title != m[j].title {
      if j >= |existing| && i < |existing| {
        assert m[j] == added[j - |existing|];
        assert m[j] in added;
        assert m[i] in existing;
      } else if i >= |existing| {
        assert m[i] == added[i - |existing|] && m[j] == added[j - |existing|];
      }
    }
  }

  /** Filtering the same batch again, against the collection the first
      filtering was merged into, keeps nothing; `added` may be the kept
      candidates changed in any field but the title. */
  lemma UnseenAfterMerge(existing: seq<Item>, candidates: seq<Item>, added: seq<Item>)
    requires |added| == |Unseen(candidates, Titles(existing))|
    requires forall i :: 0 <= i < |added| ==> added[i].title == Unseen(candidates, Titles(existing))[i].title
    ensures Unseen(candidates, Titles(Merge(existing, added))) == []
  {
    var titles, merged := Titles(existing), Merge(existing, added);
    var unique := Unseen(candidates, titles);
    UnseenSpec(candidates, titles);
    MergeSpec(existing, added);
    var mergedTitles := Titles(merged);
    assert titles <= mergedTitles;
    forall c | c in candidates ensures c.title in mergedTitles {
      if c.title !in titles {
        assert c in unique;
        var k :| 0 <= k < |unique| && unique[k] == c;
        assert added[k].title == c.title;
        assert merged[|existing| + k] == added[k];
        assert added[k] in merged;
      }
    }
    UnseenAllSeen(candidates, mergedTitles);
  }

  /** Two candidates with the same new title both pass the filter, so the
      merged collection can hold a title twice. */
  lemma BatchRepeatSurvives(existing: seq<Item>, c: Item)
    requires c.title !in Titles(existing)
    ensures Unseen([c, c], Titles(existing)) == [c, c]
    ensures !UniqueTitles(Merge(existing, [c, c]))
  {
    UnseenAllNew([c, c], Titles(existing));
    var m := Merge(existing, [c, c]);
    assert m[|existing|] == c && m[|existing| + 1] == c;
  }

  /** With "自荐: 我的项目" stored, of the candidates titled "自荐: 我的项目" and
      "推荐大家" only the second is new. */
  lemma DedupExample(stored: Item, a: Item, b: Item)
    requires stored.title == a.title == "自荐: 我的项目" && b.title == "推荐大家"
    ensures Unseen([a, b], Titles([stored])) == [b]
  {
    var titles := Titles([stored]);
    assert titles == {"自荐: 我的项目"};
    assert b.title[0] != "自荐: 我的项目"[0];
    assert b.title !in titles;
    assert [a, b][1..] == [b];
    assert [b][1..] == [];
    assert Unseen([b], titles) == [b] + Unseen([], titles);
  }
}
