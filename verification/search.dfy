/** The location search bar: the offline search over the built-in catalog,
    the online search that merges map-service answers with it, the search
    history, and the choice of what the result list shows.

    Kotlin's case-insensitive `contains` is `Text.ContainsFold` with the
    character fold passed in as `fold`. The catalog (the app's built-in list
    of places) is a parameter.
 */
module Search {
  import Text
  import Ranking
  import Protocol

  datatype Place = Place(title: string, snippet: string, lat: real, lng: real)

  function Title(p: Place): string { p.title }

  const MaxHistory: nat := 5
  const HotCount: nat := 10
  /** The query length from which typing starts a search. */
  const MinQueryLength: nat := 2
  const NotFoundText: string := "未找到相关位置"

  // ---------------------------------------------------------------------
  // Keywords

  /** A space, the full-width comma, the ASCII comma and the ideographic
      enumeration comma. */
  const Delimiters: set<char> := {' ', '\U{FF0C}', ',', '\U{3001}'}

  /** Trims each piece. */
  function TrimAll(pieces: seq<string>): (r: seq<string>)
    ensures |r| == |pieces|
    ensures forall i :: 0 <= i < |pieces| ==> r[i] == Text.Trim(pieces[i])
  {
    if |pieces| == 0 then [] else [Text.Trim(pieces[0])] + TrimAll(pieces[1..])
  }

  function NonEmpty(s: string): bool { s != "" }

  /** The query split at every delimiter, empty pieces dropped, and then
      each piece trimmed (in that order, so a piece of other whitespace
      becomes an empty keyword). */
  function Keywords(query: string): (r: seq<string>)
  {
    TrimAll(Text.Filter(Text.SplitAny(query, Delimiters), NonEmpty))
  }

  /** No keyword holds a delimiter, and each is the trim of a non-empty
      piece of the query between delimiters. */
  lemma KeywordsSpec(query: string)
    ensures var pieces := Text.Filter(Text.SplitAny(query, Delimiters), NonEmpty);
      && |Keywords(query)| == |pieces|
      && forall i :: 0 <= i < |pieces| ==>
           pieces[i] != "" && pieces[i] in Text.SplitAny(query, Delimiters)
           && Keywords(query)[i] == Text.Trim(pieces[i])
  {
    var pieces := Text.Filter(Text.SplitAny(query, Delimiters), NonEmpty);
    forall i | 0 <= i < |pieces|
      ensures pieces[i] != "" && pieces[i] in Text.SplitAny(query, Delimiters)
    {
      assert pieces[i] in pieces;
    }
  }

  /** A query made of delimiters only has no keywords. */
  lemma OnlyDelimitersNoKeywords(query: string)
    requires forall i :: 0 <= i < |query| ==> query[i] in Delimiters
    ensures Keywords(query) == []
  {
    var pieces := Text.SplitAny(query, Delimiters);
    DelimitersOnlyEmptyPieces(query, Delimiters);
    Text.FilterNone(pieces, NonEmpty);
  }

  /** Splitting a string of delimiters gives empty pieces only. */
  lemma {:induction false} DelimitersOnlyEmptyPieces(s: string, delims: set<char>)
    requires forall i :: 0 <= i < |s| ==> s[i] in delims
    ensures forall p :: p in Text.SplitAny(s, delims) ==> p == ""
    decreases |s|
  {
    if |s| > 0 {
      DelimitersOnlyEmptyPieces(s[1..], delims);
    }
  }

  /** A query without delimiters is one keyword: the query trimmed. */
  lemma {:induction false} PlainQueryOneKeyword(query: string)
    requires query != ""
    requires forall i :: 0 <= i < |query| ==> query[i] !in Delimiters
    ensures Keywords(query) == [Text.Trim(query)]
  {
    SplitWithoutDelimiters(query, Delimiters);
    assert Text.Filter([query], NonEmpty) == [query];
  }

  lemma {:induction false} SplitWithoutDelimiters(s: string, delims: set<char>)
    requires forall i :: 0 <= i < |s| ==> s[i] !in delims
    ensures Text.SplitAny(s, delims) == [s]
    decreases |s|
  {
    if |s| > 0 {
      SplitWithoutDelimiters(s[1..], delims);
      assert [s[0]] + s[1..] == s;
    }
  }

  /** A piece of whitespace other than a space survives the emptiness
      filter and trims to the empty keyword, which every title contains. */
  lemma TabGivesEmptyKeyword()
    ensures Keywords("\t") == [""]
  {
    PlainQueryOneKeyword("\t");
    assert Text.TrimStart("\t") == "";
  }

  // ---------------------------------------------------------------------
  // Offline search

  /** An administrative-division name: it ends with 市, 区, 县, 省 or 自治区. */
  predicate AdminTitle(t: string) {
    Text.EndsWith(t, "市") || Text.EndsWith(t, "区") || Text.EndsWith(t, "县")
    || Text.EndsWith(t, "省") || Text.EndsWith(t, "自治区")
  }

  /** The 自治区 test adds nothing: such a name already ends with 区. */
  lemma AdminByLastCharacter(t: string)
    ensures AdminTitle(t) <==> |t| > 0 && t[|t| - 1] in {'市', '区', '县', '省'}
  {
    if Text.EndsWith(t, "自治区") {
      assert t[|t| - 1] == "自治区"[2];
    }
    if |t| > 0 && t[|t| - 1] in {'市', '区', '县', '省'} {
      assert t[|t| - 1..] == [t[|t| - 1]];
    }
  }

  /** A catalog place whose title contains the whole query and names an
      administrative division. */
  function AdminHit(query: string, fold: char -> char): Place -> bool {
    (p: Place) => Text.ContainsFold(p.title, query, fold) && AdminTitle(p.title)
  }

  /** Some keyword occurs in the title or the snippet. */
  predicate Matches(p: Place, keywords: seq<string>, fold: char -> char) {
    exists i :: 0 <= i < |keywords| && Mentions(p, keywords[i], fold)
  }

  predicate Mentions(p: Place, k: string, fold: char -> char) {
    Text.ContainsFold(p.title, k, fold) || Text.ContainsFold(p.snippet, k, fold)
  }

  function MatchHit(keywords: seq<string>, fold: char -> char): Place -> bool {
    (p: Place) => Matches(p, keywords, fold)
  }

  /** The points one keyword earns a place: 100 for a title equal to it,
      else 50 for a title containing it, else 20 for a snippet containing
      it. */
  function KeywordPoints(p: Place, k: string, fold: char -> char): (r: nat)
    ensures r > 0 <==> p.title == k || Mentions(p, k, fold)
  {
    if p.title == k then
      Text.ContainsSelf(k);
      100
    else if Text.ContainsFold(p.title, k, fold) then 50
    else if Text.ContainsFold(p.snippet, k, fold) then 20
    else 0
  }

  function KeywordScore(p: Place, keywords: seq<string>, fold: char -> char): (r: nat)
    ensures r <= 100 * |keywords|
  {
    if |keywords| == 0 then 0
    else KeywordPoints(p, keywords[0], fold) + KeywordScore(p, keywords[1..], fold)
  }

  /** The ranking score: the keyword points plus 30 for an
      administrative-division name. */
  function Score(p: Place, keywords: seq<string>, fold: char -> char): (r: nat)
    ensures r >= KeywordScore(p, keywords, fold)
    ensures r - KeywordScore(p, keywords, fold) == (if AdminTitle(p.title) then 30 else 0)
  {
    KeywordScore(p, keywords, fold) + if AdminTitle(p.title) then 30 else 0
  }

  function ScoreOf(keywords: seq<string>, fold: char -> char): Place -> int {
    (p: Place) => Score(p, keywords, fold)
  }

  /** A place earns keyword points exactly when it matches. */
  lemma {:induction false} PointsIffMatch(p: Place, keywords: seq<string>, fold: char -> char)
    ensures KeywordScore(p, keywords, fold) > 0 <==> Matches(p, keywords, fold)
    decreases |keywords|
  {
    if |keywords| > 0 {
      PointsIffMatch(p, keywords[1..], fold);
      var k := keywords[0];
      if p.title == k {
        Text.ContainsSelf(k);
        Text.ContainsFoldOfContains(p.title, k, fold);
      }
      if Matches(p, keywords[1..], fold) {
        var i :| 0 <= i < |keywords[1..]| && Mentions(p, keywords[1..][i], fold);
        assert Mentions(p, keywords[i + 1], fold);
      }
      if Matches(p, keywords, fold) && !Mentions(p, k, fold) {
        var i :| 0 <= i < |keywords| && Mentions(p, keywords[i], fold);
        assert i > 0 && Mentions(p, keywords[1..][i - 1], fold);
      }
      if Mentions(p, k, fold) {
        assert Mentions(p, keywords[0], fold);
      }
    }
  }

  /** The looser test: a keyword's first two characters occur in the title
      or the snippet, or (for a keyword of two or more characters) its
      first half occurs in the title. */
  predicate LooseMatches(p: Place, keywords: seq<string>, fold: char -> char) {
    exists i :: 0 <= i < |keywords| && LooseMentions(p, keywords[i], fold)
  }

  predicate LooseMentions(p: Place, k: string, fold: char -> char) {
    Text.ContainsFold(p.title, Text.Take(k, 2), fold)
    || (|k| >= 2 && Text.ContainsFold(p.title, Text.Take(k, |k| / 2), fold))
    || Text.ContainsFold(p.snippet, Text.Take(k, 2), fold)
  }

  function LooseHit(keywords: seq<string>, fold: char -> char): Place -> bool {
    (p: Place) => LooseMatches(p, keywords, fold)
  }

  /** `performLocalSearch`. An empty query clears the results. Otherwise
      administrative divisions containing the whole query win outright;
      failing those, the places matching some keyword, best score first;
      failing those, the places matching loosely. */
  function LocalSearch(catalog: seq<Place>, query: string, fold: char -> char): (r: seq<Place>)
    ensures query == "" ==> r == []
    ensures forall x :: x in r ==> x in catalog
    ensures |r| <= |catalog|
  {
    if query == "" then []
    else
      var admin := Text.Filter(catalog, AdminHit(query, fold));
      if |admin| > 0 then admin
      else
        var keywords := Keywords(query);
        var matched := Text.Filter(catalog, MatchHit(keywords, fold));
        if |matched| > 0 then
          var ranked := Ranking.SortDescending(matched, ScoreOf(keywords, fold));
          assert forall x :: x in ranked ==> x in matched by {
            forall x | x in ranked ensures x in matched {
              assert x in multiset(ranked);
            }
          }
          ranked
        else Text.Filter(catalog, LooseHit(keywords, fold))
  }

  /** When an administrative division contains the query, the results are
      exactly those divisions, in catalog order. */
  lemma AdminShortCircuit(catalog: seq<Place>, query: string, fold: char -> char, p: Place)
    requires query != "" && p in catalog && AdminTitle(p.title) && Text.ContainsFold(p.title, query, fold)
    ensures var r := LocalSearch(catalog, query, fold);
      && p in r
      && (forall x :: x in r <==> x in catalog && AdminTitle(x.title) && Text.ContainsFold(x.title, query, fold))
      && Text.IsSubsequence(r, catalog)
  {
    var admin := Text.Filter(catalog, AdminHit(query, fold));
    assert AdminHit(query, fold)(p);
    assert p in admin;
    Text.FilterIsSubsequence(catalog, AdminHit(query, fold));
  }

  /** Without an administrative hit but with keyword matches, the results
      are the matching places, ranked: a permutation of them, scores never
      increasing, and places of equal score in catalog order. */
  lemma RankedWhenMatched(catalog: seq<Place>, query: string, fold: char -> char)
    requires query != ""
    requires forall x :: x in catalog ==> !(AdminTitle(x.title) && Text.ContainsFold(x.title, query, fold))
    requires exists x :: x in catalog && Matches(x, Keywords(query), fold)
    ensures var keywords := Keywords(query);
      var matched := Text.Filter(catalog, MatchHit(keywords, fold));
      var r := LocalSearch(catalog, query, fold);
      && multiset(r) == multiset(matched)
      && Ranking.Descending(r, ScoreOf(keywords, fold))
      && (forall k :: Ranking.Band(r, ScoreOf(keywords, fold), k) == Ranking.Band(matched, ScoreOf(keywords, fold), k))
      && (forall x :: x in r ==> Matches(x, keywords, fold))
  {
    var keywords := Keywords(query);
    var matched := Text.Filter(catalog, MatchHit(keywords, fold));
    var r := LocalSearch(catalog, query, fold);
    RankedBranch(catalog, query, fold);
    Ranking.SortSpec(matched, ScoreOf(keywords, fold));
    forall y | y in r ensures Matches(y, keywords, fold) {
      assert y in multiset(r);
      assert y in matched;
    }
  }

  /** Under the same conditions the search takes its ranking branch. */
  lemma RankedBranch(catalog: seq<Place>, query: string, fold: char -> char)
    requires query != ""
    requires forall x :: x in catalog ==> !(AdminTitle(x.title) && Text.ContainsFold(x.title, query, fold))
    requires exists x :: x in catalog && Matches(x, Keywords(query), fold)
    ensures var keywords := Keywords(query);
      LocalSearch(catalog, query, fold) == Ranking.SortDescending(Text.Filter(catalog, MatchHit(keywords, fold)), ScoreOf(keywords, fold))
  {
    var keywords := Keywords(query);
    Text.FilterNone(catalog, AdminHit(query, fold));
    var x :| x in catalog && Matches(x, keywords, fold);
    assert MatchHit(keywords, fold)(x);
  }

  /** With no administrative hit and no keyword match in the catalog, the
      results are every place the looser test accepts, in catalog order. */
  lemma LooseWhenNothingMatched(catalog: seq<Place>, query: string, fold: char -> char)
    requires query != ""
    requires forall x :: x in catalog ==> !(AdminTitle(x.title) && Text.ContainsFold(x.title, query, fold))
    requires forall x :: x in catalog ==> !Matches(x, Keywords(query), fold)
    ensures LocalSearch(catalog, query, fold) == Text.Filter(catalog, LooseHit(Keywords(query), fold))
  {
    Text.FilterNone(catalog, AdminHit(query, fold));
    Text.FilterNone(catalog, MatchHit(Keywords(query), fold));
  }

  /** A result that matches no keyword comes from the loose fallback, which
      runs only when no catalog place matched at all. */
  lemma LooseOnlyWhenNothingMatched(catalog: seq<Place>, query: string, fold: char -> char, x: Place)
    ensures x in LocalSearch(catalog, query, fold) && !Matches(x, Keywords(query), fold)
              && !(AdminTitle(x.title) && Text.ContainsFold(x.title, query, fold)) ==>
              (forall y :: y in catalog ==> !Matches(y, Keywords(query), fold))
              && LooseMatches(x, Keywords(query), fold)
  {
    if !(x in LocalSearch(catalog, query, fold) && !Matches(x, Keywords(query), fold)
         && !(AdminTitle(x.title) && Text.ContainsFold(x.title, query, fold))) {
      return;
    }
    var keywords := Keywords(query);
    var admin := Text.Filter(catalog, AdminHit(query, fold));
    assert x !in admin;
    var matched := Text.Filter(catalog, MatchHit(keywords, fold));
    var ranked := Ranking.SortDescending(matched, ScoreOf(keywords, fold));
    assert x !in ranked by {
      assert x in ranked ==> x in multiset(ranked);
    }
    assert |admin| == 0 && |matched| == 0;
    forall y | y in catalog ensures !Matches(y, keywords, fold) {
      assert MatchHit(keywords, fold)(y) ==> y in matched;
    }
    assert x in Text.Filter(catalog, LooseHit(keywords, fold));
  }

  // ---------------------------------------------------------------------
  // Online search

  datatype Point = Point(lat: real, lng: real)

  /** An input tip from the map service; any field may be missing. */
  datatype Tip = Tip(name: Protocol.Option<string>, district: Protocol.Option<string>,
                     address: Protocol.Option<string>, point: Protocol.Option<Point>)

  /** A point of interest from the map service. */
  datatype Poi = Poi(title: Protocol.Option<string>, snippet: Protocol.Option<string>,
                     adName: Protocol.Option<string>, point: Protocol.Option<Point>)

  /** Kotlin `?:`. */
  function OrElse(o: Protocol.Option<string>, d: string): string {
    if o.Some? then o.value else d
  }

  function TipPlace(t: Tip): Place
    requires t.point.Some?
  {
    Place(OrElse(t.name, ""), OrElse(t.district, OrElse(t.address, "")), t.point.value.lat, t.point.value.lng)
  }

  /** The tips that carry a location, as places, in order. */
  function TipPlaces(tips: seq<Tip>): (r: seq<Place>)
    ensures |r| <= |tips|
    ensures forall x :: x in r ==> exists i :: 0 <= i < |tips| && tips[i].point.Some? && x == TipPlace(tips[i])
    ensures (forall i :: 0 <= i < |tips| ==> tips[i].point.None?) <==> r == []
  {
    if |tips| == 0 then []
    else
      var rest := TipPlaces(tips[1..]);
      assert forall x :: x in rest ==> exists i :: 1 <= i < |tips| && tips[i].point.Some? && x == TipPlace(tips[i]) by {
        forall x | x in rest ensures exists i :: 1 <= i < |tips| && tips[i].point.Some? && x == TipPlace(tips[i]) {
          var j :| 0 <= j < |tips[1..]| && tips[1..][j].point.Some? && x == TipPlace(tips[1..][j]);
          assert tips[j + 1] == tips[1..][j];
        }
      }
      assert (forall i :: 1 <= i < |tips| ==> tips[i].point.None?) <==> (forall i :: 0 <= i < |tips[1..]| ==> tips[1..][i].point.None?) by {
        assert forall i :: 0 <= i < |tips[1..]| ==> tips[1..][i] == tips[i + 1];
      }
      if tips[0].point.Some? then [TipPlace(tips[0])] + rest else rest
  }

  function PoiPlace(p: Poi): Place
    requires p.point.Some?
  {
    Place(OrElse(p.title, ""), OrElse(p.snippet, OrElse(p.adName, "")), p.point.value.lat, p.point.value.lng)
  }

  /** The points of interest as places; a point of interest without a
      location makes the conversion throw, shown as `None`. */
  function PoiPlaces(pois: seq<Poi>): (r: Protocol.Option<seq<Place>>)
    ensures r.Some? <==> forall i :: 0 <= i < |pois| ==> pois[i].point.Some?
    ensures r.Some? ==> |r.value| == |pois| && forall i :: 0 <= i < |pois| ==> r.value[i] == PoiPlace(pois[i])
  {
    if |pois| == 0 then Protocol.Some([])
    else if pois[0].point.None? then Protocol.None
    else
      match PoiPlaces(pois[1..])
      case None =>
        assert exists i :: 0 <= i < |pois[1..]| && pois[1..][i].point.None?;
        Protocol.None
      case Some(rest) =>
        assert forall i :: 1 <= i < |pois| ==> pois[i] == pois[1..][i - 1];
        Protocol.Some([PoiPlace(pois[0])] + rest)
  }

  /** The catalog places whose title or snippet contains `keyword`. */
  function Mentioning(catalog: seq<Place>, keyword: string, fold: char -> char): (r: seq<Place>)
    ensures forall x :: x in r <==> x in catalog && Mentions(x, keyword, fold)
  {
    Text.Filter(catalog, (p: Place) => Mentions(p, keyword, fold))
  }

  /** The local matches first, then the online answers de-duplicated by
      title, and the whole de-duplicated by title again. */
  function Merge(local: seq<Place>, online: seq<Place>): seq<Place>
  {
    Text.DistinctBy(local + Text.DistinctBy(online, Title), Title)
  }

  /** The merge is one de-duplication of local-then-online: titles are
      distinct, the local places come first (the first of each title), so a
      local place beats an online one of the same title, and every title
      offered survives. */
  lemma MergeSpec(local: seq<Place>, online: seq<Place>)
    ensures var r := Merge(local, online);
      && r == Text.DistinctBy(local + online, Title)
      && Text.DistinctBy(local, Title) <= r
      && Text.DistinctKeys(r, Title)
      && (forall x :: x in r ==> x in local || x in online)
      && (forall x :: x in local + online ==> exists y :: y in r && y.title == x.title)
  {
    var seenLocal := Text.KeySet(local, Title);
    Text.DistinctFromAppend(local, Text.DistinctBy(online, Title), Title, {});
    Text.DistinctFromTwice(online, Title, {}, {} + seenLocal);
    Text.DistinctFromAppend(local, online, Title, {});
    Text.DistinctBySpec(local + online, Title);
  }

  /** `searchWithAmapAPI` given the two services' answers (each an empty
      list when its request failed or timed out). A blank keyword changes
      nothing (`None`); a point of interest without a location throws and
      the offline search runs instead. */
  function OnlineSearch(catalog: seq<Place>, keyword: string, fold: char -> char,
                        tips: seq<Tip>, pois: seq<Poi>): (r: Protocol.Option<seq<Place>>)
    ensures r.None? <==> Text.IsBlank(keyword)
    ensures r.Some? && PoiPlaces(pois).None? ==> r.value == LocalSearch(catalog, keyword, fold)
  {
    if Text.IsBlank(keyword) then Protocol.None
    else match PoiPlaces(pois)
      case None => Protocol.Some(LocalSearch(catalog, keyword, fold))
      case Some(poiPlaces) =>
        var merged := Merge(Mentioning(catalog, keyword, fold), TipPlaces(tips) + poiPlaces);
        if |merged| > 0 then Protocol.Some(merged)
        else Protocol.Some(Mentioning(catalog, Text.Take(keyword, 2), fold))
  }

  /** The online results are the merge whenever it is not empty; it is
      empty exactly when no catalog place mentions the keyword and neither
      service offered a located answer, and then the catalog places
      mentioning the keyword's first two characters are shown. */
  lemma OnlineResults(catalog: seq<Place>, keyword: string, fold: char -> char, tips: seq<Tip>, pois: seq<Poi>)
    requires !Text.IsBlank(keyword)
    requires forall i :: 0 <= i < |pois| ==> pois[i].point.Some?
    ensures var local := Mentioning(catalog, keyword, fold);
      var online := TipPlaces(tips) + PoiPlaces(pois).value;
      var r := OnlineSearch(catalog, keyword, fold, tips, pois).value;
      && (|local| > 0 || |online| > 0 ==> r == Text.DistinctBy(local + online, Title))
      && (|local| == 0 && |online| == 0 <==>
            (forall x :: x in catalog ==> !Mentions(x, keyword, fold))
            && (forall i :: 0 <= i < |tips| ==> tips[i].point.None?) && |pois| == 0)
      && (|local| == 0 && |online| == 0 ==> r == Mentioning(catalog, Text.Take(keyword, 2), fold))
  {
    var local := Mentioning(catalog, keyword, fold);
    var online := TipPlaces(tips) + PoiPlaces(pois).value;
    MergeSpec(local, online);
    Text.DistinctByEmpty(local + Text.DistinctBy(online, Title), Title);
    Text.DistinctByEmpty(online, Title);
    if |local| > 0 {
      assert local[0] in local;
    }
  }

  // ---------------------------------------------------------------------
  // Typing, history, display

  /** The effect of the query changing: from two characters on, the
      online search runs (a blank query leaves the results alone); an
      empty query clears them; a single character leaves them alone. */
  function Typed(query: string, results: seq<Place>, catalog: seq<Place>, fold: char -> char,
                 tips: seq<Tip>, pois: seq<Poi>): (r: seq<Place>)
    ensures query == "" ==> r == []
    ensures |query| == 1 ==> r == results
    ensures |query| >= MinQueryLength && !Text.IsBlank(query) ==> r == OnlineSearch(catalog, query, fold, tips, pois).value
  {
    if |query| >= MinQueryLength then
      match OnlineSearch(catalog, query, fold, tips, pois)
      case None => results
      case Some(found) => found
    else if query == "" then []
    else results
  }

  function OtherTitle(x: Place): Place -> bool {
    (p: Place) => p.title != x.title
  }

  /** `addToHistory`: the entry goes first, any entry of the same title is
      removed, and a list grown past the limit loses its last entry. */
  function AddToHistory(history: seq<Place>, x: Place): (r: seq<Place>)
    ensures |r| >= 1 && r[0] == x
    ensures forall i :: 1 <= i < |r| ==> r[i].title != x.title
    ensures |history| <= MaxHistory ==> |r| <= MaxHistory
    ensures Text.IsSubsequence(r[1..], history)
  {
    var kept := Text.Filter(history, OtherTitle(x));
    var added := [x] + kept;
    Text.FilterIsSubsequence(history, OtherTitle(x));
    assert added[1..] == kept;
    if |added| > MaxHistory then
      Text.SubsequencePrefix(kept, history, |added| - 2);
      assert added[..|added| - 1][1..] == kept[..|added| - 2];
      assert forall i :: 1 <= i < |added| - 1 ==> added[i] in kept;
      added[..|added| - 1]
    else
      assert forall i :: 1 <= i < |added| ==> added[i] in kept;
      added
  }

  /** Selecting the entry that is already first changes nothing. */
  lemma AddToHistoryIdempotent(history: seq<Place>, x: Place)
    requires |history| <= MaxHistory
    ensures AddToHistory(AddToHistory(history, x), x) == AddToHistory(history, x)
  {
    var h := AddToHistory(history, x);
    var f := OtherTitle(x);
    FilterAllKept(h[1..], f);
    assert h == [h[0]] + h[1..];
    assert Text.Filter(h, f) == Text.Filter(h[1..], f);
  }

  lemma {:induction false} FilterAllKept<T(!new)>(s: seq<T>, f: T -> bool)
    requires forall i :: 0 <= i < |s| ==> f(s[i])
    ensures Text.Filter(s, f) == s
    decreases |s|
  {
    if |s| > 0 {
      FilterAllKept(s[1..], f);
      assert [s[0]] + s[1..] == s;
    }
  }

  /** The history after a series of selections, oldest first. */
  function Histories(selections: seq<Place>): seq<Place>
  {
    if |selections| == 0 then []
    else AddToHistory(Histories(selections[..|selections| - 1]), selections[|selections| - 1])
  }

  /** Any history built by selections holds at most five entries with
      distinct titles, the latest selection first. */
  lemma {:induction false} HistoryInvariant(selections: seq<Place>)
    ensures var h := Histories(selections);
      && |h| <= MaxHistory
      && Text.DistinctKeys(h, Title)
      && (|selections| > 0 ==> h[0] == selections[|selections| - 1])
    decreases |selections|
  {
    if |selections| > 0 {
      var prev := Histories(selections[..|selections| - 1]);
      HistoryInvariant(selections[..|selections| - 1]);
      var x := selections[|selections| - 1];
      var h := AddToHistory(prev, x);
      forall i, j | 0 <= i < j < |h| ensures h[i].title != h[j].title {
        if i > 0 {
          SubsequenceKeepsDistinct(h[1..], prev, i - 1, j - 1);
        }
      }
    }
  }

  /** Two positions of a subsequence of a sequence with distinct titles
      carry distinct titles. */
  lemma {:induction false} SubsequenceKeepsDistinct(sub: seq<Place>, s: seq<Place>, i: int, j: int)
    requires Text.IsSubsequence(sub, s) && Text.DistinctKeys(s, Title)
    requires 0 <= i < j < |sub|
    ensures sub[i].title != sub[j].title
    decreases |s|
  {
    if sub[0] == s[0] {
      if i == 0 {
        SubsequenceMembers(sub[1..], s[1..]);
        assert sub[j] == sub[1..][j - 1];
        assert sub[j] in sub[1..];
        var k :| 0 <= k < |s[1..]| && s[1..][k] == sub[j];
        assert s[k + 1] == sub[j];
      } else {
        assert Text.DistinctKeys(s[1..], Title);
        SubsequenceKeepsDistinct(sub[1..], s[1..], i - 1, j - 1);
      }
    } else {
      assert Text.DistinctKeys(s[1..], Title);
      SubsequenceKeepsDistinct(sub, s[1..], i, j);
    }
  }

  lemma {:induction false} SubsequenceMembers<T>(sub: seq<T>, s: seq<T>)
    requires Text.IsSubsequence(sub, s)
    ensures forall x :: x in sub ==> x in s
    decreases |s|
  {
    if |sub| > 0 {
      if sub[0] == s[0] {
        SubsequenceMembers(sub[1..], s[1..]);
        forall x | x in sub ensures x in s {
          assert x == sub[0] || x in sub[1..];
        }
      } else {
        SubsequenceMembers(sub, s[1..]);
      }
    }
  }

  /** What the list under the search box shows in search mode; `Hidden`
      when the bar is not in search mode and no list is drawn. */
  datatype Panel = Results(items: seq<Place>) | History(items: seq<Place>) | NotFound | HotCities(items: seq<Place>) | Blank | Hidden

  /** Results if there are any; else the history if there is one and the
      query is empty; else the not-found line from two characters on; else,
      for an empty query, the first ten catalog places; else nothing. */
  function Display(query: string, results: seq<Place>, history: seq<Place>, catalog: seq<Place>): (r: Panel)
    ensures r.Results? <==> |results| > 0
    ensures r.History? <==> |results| == 0 && |history| > 0 && query == ""
    ensures r.NotFound? <==> |results| == 0 && |query| >= MinQueryLength
    ensures r.HotCities? <==> |results| == 0 && |history| == 0 && query == ""
    ensures r.Blank? <==> |results| == 0 && |query| == 1
    ensures r.HotCities? ==> r.items == catalog[..if |catalog| < HotCount then |catalog| else HotCount]
  {
    if |results| > 0 then Results(results)
    else if |history| > 0 && query == "" then History(history)
    else if |query| >= MinQueryLength then NotFound
    else if query == "" then HotCities(if |catalog| < HotCount then catalog else catalog[..HotCount])
    else Blank
  }

  /** `handleLocationSelected`: the place joins the history, the query
      becomes its title and search mode ends; the selected position is
      passed on. A new query re-runs the query-keyed effect, so the
      results become those of the title, just as if it had been typed. */
  datatype Bar = Bar(query: string, searchMode: bool, results: seq<Place>, history: seq<Place>)

  datatype Selected = Selected(bar: Bar, at: Point)

  function Select(b: Bar, x: Place, catalog: seq<Place>, fold: char -> char,
                  tips: seq<Tip>, pois: seq<Poi>): (r: Selected)
    ensures r.bar.history == AddToHistory(b.history, x) && r.bar.history[0] == x
    ensures r.bar.query == x.title && !r.bar.searchMode
    ensures r.bar.results == Edit(b, x.title, catalog, fold, tips, pois).results
    ensures x.title == b.query ==> r.bar.results == b.results
    ensures r.at == Point(x.lat, x.lng)
  {
    var results := if x.title == b.query then b.results else Typed(x.title, b.results, catalog, fold, tips, pois);
    Selected(Bar(x.title, false, results, AddToHistory(b.history, x)), Point(x.lat, x.lng))
  }

  /** What is drawn under the box: the search-mode list, or nothing at all
      outside search mode. */
  function Shown(b: Bar, catalog: seq<Place>): (r: Panel)
    ensures r.Hidden? <==> !b.searchMode
    ensures b.searchMode ==> r == Display(b.query, b.results, b.history, catalog)
  {
    if b.searchMode then Display(b.query, b.results, b.history, catalog) else Hidden
  }

  /** Typing into the box (`onValueChange`): the text becomes the query and
      search mode starts. The query-keyed effect runs only when the query
      actually changed, and then updates the results as `Typed` does. */
  function Edit(b: Bar, text: string, catalog: seq<Place>, fold: char -> char,
                tips: seq<Tip>, pois: seq<Poi>): (r: Bar)
    ensures r.query == text && r.searchMode && r.history == b.history
    ensures text == b.query ==> r.results == b.results
    ensures text != b.query && text == "" ==> r.results == []
    ensures text != b.query && |text| == 1 ==> r.results == b.results
    ensures text != b.query && |text| >= MinQueryLength && !Text.IsBlank(text) ==>
              r.results == OnlineSearch(catalog, text, fold, tips, pois).value
  {
    if text == b.query then b.(searchMode := true)
    else b.(query := text, searchMode := true, results := Typed(text, b.results, catalog, fold, tips, pois))
  }

  /** The clear button, drawn only while the query is non-empty: it empties
      the query and leaves search mode; the query-keyed effect then empties
      the results. With an empty query there is no button and nothing
      changes. */
  function Clear(b: Bar): (r: Bar)
    ensures b.query == "" ==> r == b
    ensures b.query != "" ==> r.query == "" && !r.searchMode && r.results == [] && r.history == b.history
  {
    if b.query == "" then b else b.(query := "", searchMode := false, results := [])
  }

  /** Deleting the whole query by typing keeps search mode, so the list
      shows the history, or the popular places when there is none. */
  lemma ClearedQueryShows(b: Bar, catalog: seq<Place>, fold: char -> char, tips: seq<Tip>, pois: seq<Poi>)
    requires b.query != ""
    ensures var shown := Shown(Edit(b, "", catalog, fold, tips, pois), catalog);
      if |b.history| > 0 then shown == History(b.history)
      else shown == HotCities(catalog[..if |catalog| < HotCount then |catalog| else HotCount])
  {
  }

  /** The clear button instead leaves search mode, so nothing is drawn,
      whatever the history holds; typing again brings the list back. */
  lemma ClearButtonHides(b: Bar, catalog: seq<Place>, fold: char -> char, tips: seq<Tip>, pois: seq<Poi>, text: string)
    requires b.query != ""
    ensures Shown(Clear(b), catalog) == Hidden
    ensures !Shown(Edit(Clear(b), text, catalog, fold, tips, pois), catalog).Hidden?
  {
  }

  /** Selecting a place also leaves search mode and hides the list. */
  lemma SelectHides(b: Bar, x: Place, catalog: seq<Place>, fold: char -> char, tips: seq<Tip>, pois: seq<Poi>)
    ensures Shown(Select(b, x, catalog, fold, tips, pois).bar, catalog) == Hidden
  {
  }

  /** After a selection the remaining results are those of the selected
      title: typing a single character keeps them, so the list shows the
      online search for the title rather than the results of the query
      before it. */
  lemma OneCharAfterSelect(b: Bar, x: Place, c: char, catalog: seq<Place>, fold: char -> char,
                           tips: seq<Tip>, pois: seq<Poi>)
    requires x.title != b.query && |x.title| >= MinQueryLength && !Text.IsBlank(x.title)
    ensures Edit(Select(b, x, catalog, fold, tips, pois).bar, [c], catalog, fold, tips, pois).results
            == OnlineSearch(catalog, x.title, fold, tips, pois).value
  {
  }
}
