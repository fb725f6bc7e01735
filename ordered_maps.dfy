/** Iteration over the store's tables. A table is a JavaScript `Map` keyed by
    ids handed out by an increasing counter; `set` on an existing key keeps
    its position, so `values()` visits entries in ascending key order. The
    functions below are that iteration, cut off at a bound `hi` so that a loop
    visiting keys `0 .. hi - 1` can be related to them one step at a time. */
module OrderedMaps {
  import opened Common

  /** The values below `hi` that satisfy `p`, in ascending key order: the
      loop `for (const v of m.values()) if (p(v)) out.push(v)`. */
  function Select<V>(m: map<int, V>, p: V -> bool, hi: nat): (r: seq<V>)
    ensures |r| <= hi
    ensures forall v :: v in r ==> p(v) && exists k :: k in m && 0 <= k < hi && m[k] == v
    ensures forall k :: k in m && 0 <= k < hi && p(m[k]) ==> m[k] in r
  {
    if hi == 0 then []
    else Select(m, p, hi - 1) + (if hi - 1 in m && p(m[hi - 1]) then [m[hi - 1]] else [])
  }

  /** In a table whose entries are stored under their own id, a loop over
      the values meets each value at most once. */
  lemma {:induction false} SelectOnce<V>(m: map<int, V>, p: V -> bool, hi: nat, id: V -> int, v: V)
    requires forall k :: k in m ==> id(m[k]) == k
    ensures multiset(Select(m, p, hi))[v] <= 1
  {
    if hi > 0 {
      SelectOnce(m, p, hi - 1, id, v);
      if hi - 1 in m && p(m[hi - 1]) && m[hi - 1] == v {
        assert v !in Select(m, p, hi - 1);
      }
    }
  }

  /** `Array.from(m.values())`. */
  function Values<V(!new)>(m: map<int, V>, hi: nat): (r: seq<V>)
    ensures forall v :: v in r <==> exists k :: k in m && 0 <= k < hi && m[k] == v
  {
    Select(m, _ => true, hi)
  }

  /** The first key below `hi` whose value satisfies `p`: a loop that
      returns from inside `for (const v of m.values())`. */
  function FirstKey<V>(m: map<int, V>, p: V -> bool, hi: nat): (r: Option<int>)
    ensures r.Some? ==> r.value in m && 0 <= r.value < hi
  {
    if hi == 0 then None
    else
      var r := FirstKey(m, p, hi - 1);
      if r.Some? then r
      else if hi - 1 in m && p(m[hi - 1]) then Some(hi - 1)
      else None
  }

  /** The key found satisfies `p` and no smaller key does; when none is
      found, no key below `hi` does. */
  lemma {:induction false} FirstKeyFinds<V>(m: map<int, V>, p: V -> bool, hi: nat)
    ensures FirstKey(m, p, hi).Some? ==> p(m[FirstKey(m, p, hi).value])
    ensures FirstKey(m, p, hi).Some? ==> forall k :: k in m && 0 <= k < FirstKey(m, p, hi).value ==> !p(m[k])
    ensures FirstKey(m, p, hi).None? ==> forall k :: k in m && 0 <= k < hi ==> !p(m[k])
  {
    if hi > 0 {
      FirstKeyFinds(m, p, hi - 1);
    }
  }

  /** Once a key is found, raising the bound does not change it: the loop
      returned at the first match. */
  lemma {:induction false} FirstKeyStable<V>(m: map<int, V>, p: V -> bool, lo: nat, hi: nat)
    requires lo <= hi && FirstKey(m, p, lo).Some?
    ensures FirstKey(m, p, hi) == FirstKey(m, p, lo)
  {
    if lo < hi {
      FirstKeyStable(m, p, lo, hi - 1);
    }
  }

  /** `m` once a loop over its keys below `k` has deleted every entry whose
      value satisfies `p`: `for (const [key, v] of m.entries()) if (p(v))
      m.delete(key)`, stopped at `k`. */
  function RemovedBelow<V>(m: map<int, V>, p: V -> bool, k: int): map<int, V>
  {
    map j | j in m && !(j < k && p(m[j])) :: m[j]
  }

  /** One more key visited: it is deleted exactly when it is present and
      satisfies `p`. */
  lemma RemovedBelowStep<V>(m: map<int, V>, p: V -> bool, k: int)
    ensures RemovedBelow(m, p, k + 1) ==
      if k in m && p(m[k]) then RemovedBelow(m, p, k) - {k} else RemovedBelow(m, p, k)
  {
    var next := if k in m && p(m[k]) then RemovedBelow(m, p, k) - {k} else RemovedBelow(m, p, k);
    assert forall j :: j in RemovedBelow(m, p, k + 1) <==> j in next;
  }

  /** The entries of `m` whose value does not satisfy `p`. */
  function RemoveWhere<V>(m: map<int, V>, p: V -> bool): (r: map<int, V>)
    ensures forall j :: j in r <==> j in m && !p(m[j])
    ensures forall j :: j in r ==> r[j] == m[j]
  {
    map j | j in m && !p(m[j]) :: m[j]
  }

  /** Before the loop no key is deleted; after it, every entry satisfying
      `p` is. */
  lemma RemovedBelowEnds<V>(m: map<int, V>, p: V -> bool, hi: int)
    requires forall j :: j in m ==> 0 <= j < hi
    ensures RemovedBelow(m, p, 0) == m
    ensures RemovedBelow(m, p, hi) == RemoveWhere(m, p)
  {
    assert forall j :: j in RemovedBelow(m, p, 0) <==> j in m;
  }

  /** The distinct projections of the selected values, in order of first
      occurrence: the loop `for (const v of m.values()) if (sel(v))
      ids.add(proj(v))` over a JavaScript `Set`. */
  function Distinct<V>(m: map<int, V>, sel: V -> bool, proj: V -> int, hi: nat): (r: seq<int>)
    ensures forall i, j :: 0 <= i < j < |r| ==> r[i] != r[j]
    ensures forall x :: x in r <==> exists k :: k in m && 0 <= k < hi && sel(m[k]) && proj(m[k]) == x
  {
    if hi == 0 then []
    else
      var prev := Distinct(m, sel, proj, hi - 1);
      if hi - 1 in m && sel(m[hi - 1]) && proj(m[hi - 1]) !in prev then prev + [proj(m[hi - 1])]
      else prev
  }

  /** `ids.map(id => m.get(id)).filter(Boolean)`: the entries of the listed
      ids that exist, in the order of `ids`. */
  function LookupAll<V(!new)>(ids: seq<int>, m: map<int, V>): (r: seq<V>)
    ensures |r| <= |ids|
    ensures forall v :: v in r <==> exists i :: 0 <= i < |ids| && ids[i] in m && m[ids[i]] == v
  {
    if ids == [] then []
    else
      var rest := LookupAll(ids[1..], m);
      assert forall i :: 0 < i < |ids| ==> ids[i] == ids[1..][i - 1];
      if ids[0] in m then [m[ids[0]]] + rest else rest
  }

  /** Looking up distinct ids in a table whose entries are stored under their
      own id yields each entry at most once. */
  lemma {:induction false} LookupAllDistinct<V(!new)>(ids: seq<int>, m: map<int, V>, id: V -> int)
    requires forall i, j :: 0 <= i < j < |ids| ==> ids[i] != ids[j]
    requires forall k :: k in m ==> id(m[k]) == k
    ensures forall i, j :: 0 <= i < j < |LookupAll(ids, m)| ==> LookupAll(ids, m)[i] != LookupAll(ids, m)[j]
  {
    if ids != [] {
      LookupAllDistinct(ids[1..], m, id);
      var rest := LookupAll(ids[1..], m);
      if ids[0] in m {
        forall v | v in rest
          ensures v != m[ids[0]]
        {
          var i :| 0 <= i < |ids[1..]| && ids[1..][i] in m && m[ids[1..][i]] == v;
          assert ids[1..][i] == ids[i + 1];
          assert id(v) == ids[i + 1] != ids[0] == id(m[ids[0]]);
        }
        var r := [m[ids[0]]] + rest;
        assert LookupAll(ids, m) == r;
        forall i, j | 0 <= i < j < |r|
          ensures r[i] != r[j]
        {
          assert r[j] == rest[j - 1] && r[j] in rest;
          if i > 0 {
            assert r[i] == rest[i - 1];
            assert rest[i - 1] != rest[j - 1];
          } else {
            assert r[i] == m[ids[0]];
          }
        }
      }
    }
  }
}
