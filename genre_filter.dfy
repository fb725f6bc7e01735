/** The genre chips of client/src/components/genre-filter.tsx: clicking a
    chip removes its id from the active list when present, and appends it
    otherwise. */
module GenreFilter {

  /** `prev.filter(id => id !== genreId)`. */
  function Without(ids: seq<string>, id: string): (r: seq<string>)
    ensures id !in r
    ensures forall x :: x in r <==> x in ids && x != id
    ensures |r| <= |ids|
  {
    if ids == [] then []
    else if ids[0] == id then Without(ids[1..], id)
    else [ids[0]] + Without(ids[1..], id)
  }

  /** `handleGenreClick`'s update of `activeGenres`. */
  function Click(active: seq<string>, id: string): (r: seq<string>)
    ensures id in active ==> id !in r
    ensures id !in active ==> r == active + [id]
  {
    if id in active then Without(active, id) else active + [id]
  }

  lemma {:induction false} WithoutAbsent(ids: seq<string>, id: string)
    requires id !in ids
    ensures Without(ids, id) == ids
  {
    if ids != [] {
      WithoutAbsent(ids[1..], id);
    }
  }

  lemma {:induction false} WithoutAppend(ids: seq<string>, more: seq<string>, id: string)
    ensures Without(ids + more, id) == Without(ids, id) + Without(more, id)
  {
    if ids == [] {
      assert ids + more == more;
    } else {
      assert (ids + more)[1..] == ids[1..] + more;
      WithoutAppend(ids[1..], more, id);
    }
  }

  lemma {:induction false} WithoutTwice(ids: seq<string>, id: string)
    ensures Without(Without(ids, id), id) == Without(ids, id)
  {
    if ids != [] {
      WithoutTwice(ids[1..], id);
    }
  }

  /** A click touches nothing but the clicked id: with that id taken out,
      the lists before and after are the same, so the other ids keep their
      multiplicity and their relative order. */
  lemma ClickKeepsOthers(active: seq<string>, id: string)
    ensures Without(Click(active, id), id) == Without(active, id)
  {
    if id in active {
      WithoutTwice(active, id);
    } else {
      WithoutAppend(active, [id], id);
      assert Without([id], id) == [];
    }
  }

  /** Clicking an inactive chip twice restores the list exactly. */
  lemma ClickTwiceRestores(active: seq<string>, id: string)
    requires id !in active
    ensures Click(Click(active, id), id) == active
  {
    WithoutAppend(active, [id], id);
    assert Without([id], id) == [];
    WithoutAbsent(active, id);
  }
}
