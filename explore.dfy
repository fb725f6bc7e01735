/** The explore page of client/src/pages/explore.tsx: a title filter and a
    release-year sort in either direction. */
module Explore {
  import opened Common
  import opened Sorting

  /** What the page uses of an anime; `None` is a missing year. */
  datatype Listing = Listing(title: string, releaseYear: Option<int>)

  datatype SortOrder = Asc | Desc

  /** The toggle button. */
  function Toggle(order: SortOrder): (r: SortOrder)
    ensures r != order
  {
    if order == Asc then Desc else Asc
  }

  lemma ToggleTwice(order: SortOrder)
    ensures Toggle(Toggle(order)) == order
  {
  }

  /** `anime.title.toLowerCase().includes(searchQuery.toLowerCase())`. */
  predicate TitleMatches(a: Listing, query: string)
  {
    Contains(ToLower(a.title), ToLower(query))
  }

  function TitleHits(animes: seq<Listing>, query: string): (r: seq<Listing>)
    ensures forall a :: a in r <==> a in animes && TitleMatches(a, query)
    ensures multiset(r) <= multiset(animes)
    ensures |animes| == 1 ==> r == if TitleMatches(animes[0], query) then animes else []
  {
    if animes == [] then []
    else
      var rest := TitleHits(animes[1..], query);
      assert animes == [animes[0]] + animes[1..];
      if TitleMatches(animes[0], query) then [animes[0]] + rest else rest
  }

  /** `filteredAnimes`: the filter applies only when the query has
      something besides white space, but then the untrimmed query is
      searched for. */
  function Filtered(animes: seq<Listing>, query: string): (r: seq<Listing>)
    ensures Trim(query) == "" ==> r == animes
    ensures Trim(query) != "" ==> forall a :: a in r <==> a in animes && TitleMatches(a, query)
    ensures multiset(r) <= multiset(animes)
  {
    if Trim(query) != "" then TitleHits(animes, query) else animes
  }

  /** The filter keeps every matching listing, repeats included, in the
      order of the loaded list: filtering a concatenation is the
      concatenation of the filtered parts, and a single listing stays
      exactly when its title matches. With the stable year sort after it,
      this order decides where listings of the same year end up. */
  lemma {:induction false} FilteredKeepsOrder(a: seq<Listing>, b: seq<Listing>, query: string)
    ensures Filtered(a + b, query) == Filtered(a, query) + Filtered(b, query)
    ensures Trim(query) != "" ==> forall x :: Filtered([x], query) == if TitleMatches(x, query) then [x] else []
  {
    if Trim(query) != "" {
      TitleHitsConcat(a, b, query);
    }
  }

  lemma {:induction false} TitleHitsConcat(a: seq<Listing>, b: seq<Listing>, query: string)
    ensures TitleHits(a + b, query) == TitleHits(a, query) + TitleHits(b, query)
  {
    if a != [] {
      assert (a + b)[0] == a[0];
      assert (a + b)[1..] == a[1..] + b;
      TitleHitsConcat(a[1..], b, query);
    } else {
      assert a + b == b;
    }
  }

  /** `a.releaseYear || 0`. */
  function Year(a: Listing): (r: int)
    ensures a.releaseYear.None? ==> r == 0
  {
    if a.releaseYear.Some? then a.releaseYear.value else 0
  }

  function NegatedYear(a: Listing): (r: int)
    ensures r + Year(a) == 0
  {
    -Year(a)
  }

  /** The release-year branch of `sortedAnimes`; a descending comparator
      is the ascending sort on the negated year. */
  function SortedByYear(animes: seq<Listing>, order: SortOrder): (r: seq<Listing>)
    ensures multiset(r) == multiset(animes)
    ensures order == Asc ==> forall i, j :: 0 <= i < j < |r| ==> Year(r[i]) <= Year(r[j])
    ensures order == Desc ==> forall i, j :: 0 <= i < j < |r| ==> Year(r[i]) >= Year(r[j])
  {
    if order == Asc then SortBy(animes, Year)
    else
      var r := SortBy(animes, NegatedYear);
      assert forall i, j :: 0 <= i < j < |r| ==> NegatedYear(r[i]) <= NegatedYear(r[j]);
      r
  }

  /** A query of white space shows everything. */
  lemma BlankQueryShowsAll(animes: seq<Listing>)
    ensures Filtered(animes, "   ") == animes
  {
    var spaces := "   ";
    assert TrimStart(spaces) == TrimStart(spaces[1..]);
    assert TrimStart(spaces[1..]) == TrimStart(spaces[2..]);
  }

  /** Since the query is searched for untrimmed, padding counts: a query
      longer than every title finds nothing. */
  lemma LongQueryFindsNothing(animes: seq<Listing>, query: string)
    requires Trim(query) != ""
    requires forall a :: a in animes ==> |a.title| < |query|
    ensures Filtered(animes, query) == []
  {
    NoHits(animes, query);
  }

  lemma {:induction false} NoHits(animes: seq<Listing>, query: string)
    requires forall a :: a in animes ==> |a.title| < |query|
    ensures TitleHits(animes, query) == []
  {
    if animes != [] {
      assert |ToLower(animes[0].title)| < |ToLower(query)|;
      assert !TitleMatches(animes[0], query);
      NoHits(animes[1..], query);
    }
  }

  /** So " naruto" does not find "Naruto". */
  lemma PaddedQueryMisses()
    ensures Filtered([Listing("Naruto", Some(2002))], " naruto") == []
  {
    PaddedQueryIsNotBlank();
    LongQueryFindsNothing([Listing("Naruto", Some(2002))], " naruto");
  }

  lemma PaddedQueryIsNotBlank()
    ensures Trim(" naruto") != ""
  {
    var w := "naruto";
    assert !IsSpace(w[0]) && !IsSpace(w[|w| - 1]);
    assert TrimStart(w) == w;
    assert TrimEnd(w) == w;
    TrimLeadingSpace(' ', w);
    assert [' '] + w == " naruto";
  }
}
