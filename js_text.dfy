/** The JavaScript string operations the crawler applies to text read from the
    page: `trim()`, `split(d)[0]`, `replace(/#/g, "")` and a substring test
    (what a regular expression made of literal alternatives matches).
    The functions only compute; what they compute is stated by the lemma
    that follows each. */
module JsText {

  /** A character `String.prototype.trim` removes: the ECMAScript WhiteSpace
      characters (tab, vertical tab, form feed, space, no-break space, the
      byte order mark and every other space separator) and the LineTerminator
      characters (line feed, carriage return, line and paragraph separator). */
  predicate IsTrimmed(c: char) {
    || c == '\t' || c == '\n' || c == '\U{000B}' || c == '\U{000C}' || c == '\r'
    || c == ' ' || c == '\U{00A0}' || c == '\U{1680}'
    || ('\U{2000}' <= c <= '\U{200A}')
    || c == '\U{2028}' || c == '\U{2029}' || c == '\U{202F}' || c == '\U{205F}'
    || c == '\U{3000}' || c == '\U{FEFF}'
  }

  /** `s` with its leading trimmable characters removed. */
  function TrimStart(s: string): string {
    if s != [] && IsTrimmed(s[0]) then TrimStart(s[1..]) else s
  }

  /** `s` with its trailing trimmable characters removed. */
  function TrimEnd(s: string): string {
    if s != [] && IsTrimmed(s[|s| - 1]) then TrimEnd(s[..|s| - 1]) else s
  }

  /** `s.trim()`. */
  function Trim(s: string): string {
    TrimEnd(TrimStart(s))
  }

  /** `r` is what is left of `s` once trimmable characters only are cut off
      before position `i` and after position `i + |r|`. */
  predicate StripsTo(s: string, i: int, r: string) {
    && 0 <= i <= |s| - |r|
    && r == s[i..i + |r|]
    && (forall k {:trigger IsTrimmed(s[k])} :: 0 <= k < i ==> IsTrimmed(s[k]))
    && (forall k {:trigger IsTrimmed(s[k])} :: i + |r| <= k < |s| ==> IsTrimmed(s[k]))
  }

  /** `TrimStart` cuts off a prefix made only of trimmable characters and
      stops at the first character that is not. */
  lemma {:induction false} TrimStartSpec(s: string)
    ensures StripsTo(s, |s| - |TrimStart(s)|, TrimStart(s))
    ensures TrimStart(s) == [] || !IsTrimmed(TrimStart(s)[0])
  {
    if s != [] && IsTrimmed(s[0]) {
      TrimStartSpec(s[1..]);
    }
  }

  /** `TrimEnd` cuts off a suffix made only of trimmable characters and stops
      at the last character that is not. */
  lemma {:induction false} TrimEndSpec(s: string)
    ensures StripsTo(s, 0, TrimEnd(s))
    ensures TrimEnd(s) == [] || !IsTrimmed(TrimEnd(s)[|TrimEnd(s)| - 1])
  {
    if s != [] && IsTrimmed(s[|s| - 1]) {
      TrimEndSpec(s[..|s| - 1]);
    }
  }

  /** `Trim` leaves the infix of `s` obtained by cutting off trimmable
      characters only, on both sides, and the infix neither starts nor ends
      with a trimmable character: it is the longest such infix. */
  lemma TrimSpec(s: string)
    ensures exists i :: StripsTo(s, i, Trim(s))
    ensures Trim(s) == [] || (!IsTrimmed(Trim(s)[0]) && !IsTrimmed(Trim(s)[|Trim(s)| - 1]))
  {
    var t := TrimStart(s);
    TrimStartSpec(s);
    TrimEndSpec(t);
    var r := TrimEnd(t);
    var i := |s| - |t|;
    assert r == s[i..i + |r|];
    forall k | i + |r| <= k < |s| ensures IsTrimmed(s[k]) {
      assert s[k] == t[k - i];
      assert IsTrimmed(t[k - i]);
    }
    assert StripsTo(s, i, r);
    assert Trim(s) == r;
    if r != [] {
      assert r[0] == t[0];
    }
  }

  /** Trimming twice is trimming once. */
  lemma TrimIdempotent(s: string)
    ensures Trim(Trim(s)) == Trim(s)
  {
    TrimSpec(s);
    var r := Trim(s);
    NothingToTrim(r);
  }

  /** A text that neither starts nor ends with a trimmable character is left
      as it is. */
  lemma NothingToTrim(r: string)
    requires r == [] || (!IsTrimmed(r[0]) && !IsTrimmed(r[|r| - 1]))
    ensures Trim(r) == r
  {
  }

  /** The text `d` occurs in `s` starting at position `p`. */
  predicate OccursAt(s: string, d: string, p: int) {
    0 <= p && p + |d| <= |s| && s[p..p + |d|] == d
  }

  /** `s` contains `d` as a substring. */
  predicate Contains(s: string, d: string) {
    |s| >= |d| && (s[..|d|] == d || Contains(s[1..], d))
  }

  /** `Contains` holds exactly when `d` occurs at some position of `s`. */
  lemma {:induction false} ContainsOccurs(s: string, d: string)
    ensures Contains(s, d) <==> exists p :: OccursAt(s, d, p)
  {
    if |s| < |d| {
      assert forall p :: !OccursAt(s, d, p);
    } else if s[..|d|] == d {
      assert OccursAt(s, d, 0);
    } else {
      ContainsOccurs(s[1..], d);
      assert forall p :: OccursAt(s[1..], d, p) <==> OccursAt(s, d, p + 1) by {
        forall p ensures OccursAt(s[1..], d, p) <==> OccursAt(s, d, p + 1) {
          if 0 <= p && p + 1 + |d| <= |s| {
            assert s[1..][p..p + |d|] == s[p + 1..p + 1 + |d|];
          }
        }
      }
      assert !OccursAt(s, d, 0);
      if Contains(s, d) {
        var p :| OccursAt(s[1..], d, p);
        assert OccursAt(s, d, p + 1);
      }
      if exists p :: OccursAt(s, d, p) {
        var p :| OccursAt(s, d, p);
        assert OccursAt(s[1..], d, p - 1);
      }
    }
  }

  /** `s.split(d)[0]` for a non-empty delimiter. */
  function BeforeFirst(s: string, d: string): string
    requires |d| > 0
  {
    if |s| < |d| then s
    else if s[..|d|] == d then []
    else [s[0]] + BeforeFirst(s[1..], d)
  }

  /** `BeforeFirst` is the part of `s` before the first occurrence of `d`,
      or all of `s` when `d` does not occur. */
  lemma {:induction false} BeforeFirstSpec(s: string, d: string)
    requires |d| > 0
    ensures |BeforeFirst(s, d)| <= |s| && BeforeFirst(s, d) == s[..|BeforeFirst(s, d)|]
    ensures forall p :: 0 <= p < |BeforeFirst(s, d)| ==> !OccursAt(s, d, p)
    ensures |BeforeFirst(s, d)| < |s| ==> OccursAt(s, d, |BeforeFirst(s, d)|)
  {
    if |s| < |d| {
    } else if s[..|d|] == d {
      assert OccursAt(s, d, 0);
    } else {
      var r := BeforeFirst(s[1..], d);
      BeforeFirstSpec(s[1..], d);
      forall p | 0 <= p < 1 + |r| ensures !OccursAt(s, d, p) {
        if p > 0 && OccursAt(s, d, p) {
          assert s[1..][p - 1..p - 1 + |d|] == s[p..p + |d|];
          assert OccursAt(s[1..], d, p - 1);
        }
      }
      if |r| < |s| - 1 {
        assert s[1..][|r|..|r| + |d|] == s[1 + |r|..1 + |r| + |d|];
      }
    }
  }

  /** When `d` does not occur in `s`, splitting on it keeps all of `s`. */
  lemma BeforeFirstAbsent(s: string, d: string)
    requires |d| > 0 && !Contains(s, d)
    ensures BeforeFirst(s, d) == s
  {
  }

  /** `s.replace(/c/g, "")`. */
  function RemoveAll(s: string, c: char): string {
    if s == [] then []
    else if s[0] == c then RemoveAll(s[1..], c)
    else [s[0]] + RemoveAll(s[1..], c)
  }

  /** Deleting `c` leaves no `c`, keeps every other character as often as it
      occurs, and changes nothing in a text without `c`. */
  lemma {:induction false} RemoveAllSpec(s: string, c: char)
    ensures c !in RemoveAll(s, c)
    ensures multiset(RemoveAll(s, c)) == multiset(s)[c := 0]
    ensures c !in s ==> RemoveAll(s, c) == s
  {
    if s != [] {
      RemoveAllSpec(s[1..], c);
      assert s == [s[0]] + s[1..];
    }
  }

  /** Deleting a character commutes with concatenation, so the characters
      that remain keep their order. */
  lemma {:induction false} RemoveAllAppend(s: string, t: string, c: char)
    ensures RemoveAll(s + t, c) == RemoveAll(s, c) + RemoveAll(t, c)
  {
    if s == [] {
      assert s + t == t;
    } else {
      assert (s + t)[1..] == s[1..] + t;
      RemoveAllAppend(s[1..], t, c);
    }
  }

  /** `idx` lists, in strictly increasing order, positions of `s` whose
      characters spell out `r`: `r` is a subsequence of `s`. */
  predicate KeptInOrder(s: string, r: string, idx: seq<int>) {
    && |idx| == |r|
    && (forall j :: 0 <= j < |idx| ==> 0 <= idx[j] < |s| && r[j] == s[idx[j]])
    && (forall j, k :: 0 <= j < k < |idx| ==> idx[j] < idx[k])
  }

  /** Every position of `s` that does not hold `c` is listed in `idx`. */
  predicate CoversAllBut(s: string, c: char, idx: seq<int>) {
    forall k :: 0 <= k < |s| && s[k] != c ==> k in idx
  }

  /** The positions kept in `s[1..]`, moved to positions of `s`, with `0`
      in front when the first character is kept too. */
  function Shift(s: string, c: char, tail: seq<int>): seq<int>
    requires s != []
  {
    var moved := seq(|tail|, j requires 0 <= j < |tail| => tail[j] + 1);
    if s[0] == c then moved else [0] + moved
  }

  lemma ShiftKeepsOrder(s: string, c: char, tail: seq<int>)
    requires s != [] && KeptInOrder(s[1..], RemoveAll(s[1..], c), tail)
    ensures KeptInOrder(s, RemoveAll(s, c), Shift(s, c, tail))
  {
  }

  lemma ShiftCovers(s: string, c: char, tail: seq<int>)
    requires s != [] && CoversAllBut(s[1..], c, tail)
    ensures CoversAllBut(s, c, Shift(s, c, tail))
  {
    var idx := Shift(s, c, tail);
    var off := if s[0] == c then 0 else 1;
    forall k | 0 <= k < |s| && s[k] != c ensures k in idx {
      if k == 0 {
        assert idx[0] == 0;
      } else {
        assert s[1..][k - 1] == s[k];
        var j :| 0 <= j < |tail| && tail[j] == k - 1;
        assert idx[j + off] == k;
      }
    }
  }

  /** Deleting `c` keeps the characters of `s` other than `c`, all of them
      and in their order: the result is `s` read left to right with every
      position holding `c` skipped. */
  lemma {:induction false} RemoveAllOrder(s: string, c: char)
    ensures exists idx :: KeptInOrder(s, RemoveAll(s, c), idx) && CoversAllBut(s, c, idx)
  {
    if s == [] {
      assert KeptInOrder(s, RemoveAll(s, c), []);
    } else {
      RemoveAllOrder(s[1..], c);
      var tail :| KeptInOrder(s[1..], RemoveAll(s[1..], c), tail) && CoversAllBut(s[1..], c, tail);
      ShiftKeepsOrder(s, c, tail);
      ShiftCovers(s, c, tail);
    }
  }
}
