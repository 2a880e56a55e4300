/** Kotlin `sortedWith(compareByDescending { score })`: a stable sort by
    non-increasing score. Kotlin's sort is stable, so places with equal
    scores keep the order they had.

    The sort is an insertion sort: each element goes in front of the first
    element whose score is not higher, which puts it before every later
    element of the same score.
 */
module Ranking {
  import Text

  /** Scores never increase along `s`. */
  predicate Descending<T>(s: seq<T>, score: T -> int) {
    forall i, j :: 0 <= i < j < |s| ==> score(s[i]) >= score(s[j])
  }

  /** `x` placed into `s` in front of the first element scoring at most
      as much as `x`. */
  function Insert<T>(x: T, s: seq<T>, score: T -> int): (r: seq<T>)
    ensures |r| == |s| + 1
    ensures multiset(r) == multiset(s) + multiset{x}
  {
    if |s| == 0 || score(s[0]) <= score(x) then [x] + s
    else
      var rest := Insert(x, s[1..], score);
      assert s == [s[0]] + s[1..];
      [s[0]] + rest
  }

  /** The stable descending sort. */
  function SortDescending<T>(s: seq<T>, score: T -> int): (r: seq<T>)
    ensures |r| == |s|
    ensures multiset(r) == multiset(s)
  {
    if |s| == 0 then []
    else
      assert s == [s[0]] + s[1..];
      Insert(s[0], SortDescending(s[1..], score), score)
  }

  /** Inserting into a descending sequence keeps it descending. */
  lemma {:induction false} InsertDescending<T>(x: T, s: seq<T>, score: T -> int)
    requires Descending(s, score)
    ensures Descending(Insert(x, s, score), score)
    decreases |s|
  {
    if |s| > 0 && score(s[0]) > score(x) {
      var rest := Insert(x, s[1..], score);
      InsertDescending(x, s[1..], score);
      assert forall y :: y in rest ==> score(y) <= score(s[0]) by {
        InsertMembers(x, s[1..], score);
        InsertMembers(x, s, score);
      }
      HeadOnDescending(s[0], rest, score);
    }
  }

  /** An element scoring at least as much as all of a descending `s` can
      go in front of it. */
  lemma HeadOnDescending<T>(h: T, s: seq<T>, score: T -> int)
    requires Descending(s, score)
    requires forall y :: y in s ==> score(y) <= score(h)
    ensures Descending([h] + s, score)
  {
    var r := [h] + s;
    forall i, j | 0 <= i < j < |r| ensures score(r[i]) >= score(r[j]) {
      if i == 0 {
        assert r[j] in s;
      } else {
        assert r[i] == s[i - 1] && r[j] == s[j - 1];
      }
    }
  }

  /** Every element of an insertion is `x` or an element of `s`, and the
      head of a descending `s` scores at least as much as all of `s`. */
  lemma InsertMembers<T>(x: T, s: seq<T>, score: T -> int)
    requires Descending(s, score)
    ensures forall y :: y in Insert(x, s, score) ==> y == x || y in s
    ensures |s| > 0 ==> forall y :: y in s ==> score(y) <= score(s[0])
  {
    var r := Insert(x, s, score);
    forall y | y in r ensures y == x || y in s {
      assert y in multiset(r);
    }
  }

  lemma {:induction false} SortedDescending<T>(s: seq<T>, score: T -> int)
    ensures Descending(SortDescending(s, score), score)
    decreases |s|
  {
    if |s| > 0 {
      SortedDescending(s[1..], score);
      InsertDescending(s[0], SortDescending(s[1..], score), score);
    }
  }

  /** The elements scoring exactly `k`. */
  function Band<T(!new)>(s: seq<T>, score: T -> int, k: int): (r: seq<T>)
    ensures forall x :: x in r <==> x in s && score(x) == k
  {
    Text.Filter(s, x => score(x) == k)
  }

  lemma {:induction false} BandCons<T(!new)>(x: T, s: seq<T>, score: T -> int, k: int)
    ensures Band([x] + s, score, k) == (if score(x) == k then [x] else []) + Band(s, score, k)
  {
    assert ([x] + s)[1..] == s;
  }

  /** Inserting `x` into a descending sequence puts it first among the
      elements of its score and leaves every other score's order alone. */
  lemma {:induction false} InsertBand<T(!new)>(x: T, s: seq<T>, score: T -> int, k: int)
    requires Descending(s, score)
    ensures Band(Insert(x, s, score), score, k) == (if score(x) == k then [x] else []) + Band(s, score, k)
    decreases |s|
  {
    if |s| == 0 || score(s[0]) <= score(x) {
      BandCons(x, s, score, k);
    } else {
      var rest := Insert(x, s[1..], score);
      assert Descending(s[1..], score);
      InsertBand(x, s[1..], score, k);
      BandCons(s[0], rest, score, k);
      assert s == [s[0]] + s[1..];
      BandCons(s[0], s[1..], score, k);
    }
  }

  /** Stability: among the elements of any one score, the sort keeps the
      input order. */
  lemma {:induction false} SortStable<T(!new)>(s: seq<T>, score: T -> int, k: int)
    ensures Band(SortDescending(s, score), score, k) == Band(s, score, k)
    decreases |s|
  {
    if |s| > 0 {
      var t := SortDescending(s[1..], score);
      SortStable(s[1..], score, k);
      SortedDescending(s[1..], score);
      InsertBand(s[0], t, score, k);
      BandHead(s, score, k);
      SortHead(s, score);
    }
  }

  lemma SortHead<T>(s: seq<T>, score: T -> int)
    requires |s| > 0
    ensures SortDescending(s, score) == Insert(s[0], SortDescending(s[1..], score), score)
  {
  }

  lemma BandHead<T(!new)>(s: seq<T>, score: T -> int, k: int)
    requires |s| > 0
    ensures Band(s, score, k) == (if score(s[0]) == k then [s[0]] else []) + Band(s[1..], score, k)
  {
    assert s == [s[0]] + s[1..];
    BandCons(s[0], s[1..], score, k);
  }

  /** Together: the sort is a permutation, descending, and stable. */
  lemma SortSpec<T(!new)>(s: seq<T>, score: T -> int)
    ensures var r := SortDescending(s, score);
      && multiset(r) == multiset(s)
      && Descending(r, score)
      && forall k :: Band(r, score, k) == Band(s, score, k)
  {
    SortedDescending(s, score);
    forall k ensures Band(SortDescending(s, score), score, k) == Band(s, score, k) {
      SortStable(s, score, k);
    }
  }
}
