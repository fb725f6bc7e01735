/** The "up next" list of client/src/pages/watch.tsx: the episodes of the
    same anime numbered after the one playing, in number order, at most
    three of them. */
module Watch {
  import opened Common
  import opened Sorting
  import opened MemTables

  /** `filter(ep => ep.number > current)`. */
  function Later(eps: seq<Episode>, current: int): (r: seq<Episode>)
    ensures forall e :: e in r <==> e in eps && e.number > current
    ensures multiset(r) <= multiset(eps)
  {
    if eps == [] then []
    else
      var rest := Later(eps[1..], current);
      assert eps == [eps[0]] + eps[1..];
      assert forall e :: e in eps <==> e == eps[0] || e in eps[1..];
      if eps[0].number > current then [eps[0]] + rest else rest
  }

  /** `nextEpisodes`; `None` is a related list that has not loaded. */
  function NextEpisodes(related: Option<seq<Episode>>, current: int): (r: seq<Episode>)
    ensures |r| <= 3
    ensures SortedBy(r, EpisodeNumber)
    ensures forall e :: e in r ==> e.number > current
    ensures related.None? ==> r == []
    ensures related.Some? ==> multiset(r) <= multiset(related.value)
  {
    if related.None? then []
    else
      var sorted := SortBy(Later(related.value, current), EpisodeNumber);
      Take(sorted, 3)
  }

  /** Every listed episode comes from the related list, and the list holds
      the smallest-numbered later episodes: a later episode left out is
      numbered at least as high as every one kept, and is left out only
      when three were kept. */
  lemma NextEpisodesAreSmallest(related: seq<Episode>, current: int, e: Episode)
    requires e in related && e.number > current
    requires e !in NextEpisodes(Some(related), current)
    ensures |NextEpisodes(Some(related), current)| == 3
    ensures forall x :: x in NextEpisodes(Some(related), current) ==> x.number <= e.number
  {
    var sorted := SortBy(Later(related, current), EpisodeNumber);
    assert e in sorted;
    TakeSortedIsSmallest(sorted, EpisodeNumber, 3, e);
  }

  /** Every listed episode is one of the related ones. */
  lemma NextEpisodesFromRelated(related: seq<Episode>, current: int)
    ensures forall x :: x in NextEpisodes(Some(related), current) ==> x in related
  {
    var sorted := SortBy(Later(related, current), EpisodeNumber);
    forall x | x in Take(sorted, 3)
      ensures x in related
    {
      assert x in sorted;
    }
  }
}
