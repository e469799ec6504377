/** What several models say of their sequences: no repeats, and the elements that meet a condition, in order. */
module Sequences {
  ghost predicate NoRepeats<T>(s: seq<T>) {
    forall i, j | 0 <= i < j < |s| :: s[i] != s[j]
  }

  function Filter<T>(s: seq<T>, keep: T -> bool): (kept: seq<T>)
    ensures forall x | x in kept :: x in s && keep(x)
  {
    if s == [] then []
    else (if keep(s[0]) then [s[0]] else []) + Filter(s[1..], keep)
  }

  /** The places of the elements that meet the condition, in order. */
  ghost predicate Places<T(!new)>(s: seq<T>, keep: T -> bool, places: seq<nat>) {
    && (forall k | 0 <= k < |places| :: places[k] < |s| && keep(s[places[k]]))
    && (forall j, k | 0 <= j < k < |places| :: places[j] < places[k])
    && (forall i {:trigger i in places} | 0 <= i < |s| && keep(s[i]) :: i in places)
  }

  ghost predicate LieAt<T>(s: seq<T>, places: seq<nat>, kept: seq<T>) {
    |kept| == |places| && forall k | 0 <= k < |places| :: places[k] < |s| && kept[k] == s[places[k]]
  }

  lemma PlacesExist<T(!new)>(s: seq<T>, keep: T -> bool) returns (places: seq<nat>)
    ensures Places(s, keep, places)
  {
    places := [];
    for n := 0 to |s|
      invariant forall k | 0 <= k < |places| :: places[k] < n && keep(s[places[k]])
      invariant forall j, k | 0 <= j < k < |places| :: places[j] < places[k]
      invariant forall i {:trigger i in places} | 0 <= i < n && keep(s[i]) :: i in places
    {
      if keep(s[n]) {
        places := places + [n];
      }
    }
  }

  lemma {:induction false} FilterAppend<T>(a: seq<T>, b: seq<T>, keep: T -> bool)
    ensures Filter(a + b, keep) == Filter(a, keep) + Filter(b, keep)
  {
    if a == [] {
      assert a + b == b;
    } else {
      assert (a + b)[1..] == a[1..] + b;
      FilterAppend(a[1..], b, keep);
    }
  }

  lemma FilterNext<T>(s: seq<T>, keep: T -> bool, n: nat)
    requires n < |s|
    ensures Filter(s[..n + 1], keep) == if keep(s[n]) then Filter(s[..n], keep) + [s[n]] else Filter(s[..n], keep)
  {
    assert s[..n + 1] == s[..n] + [s[n]];
    FilterAppend(s[..n], [s[n]], keep);
  }

  /** The filtered sequence holds exactly the elements at those places, one for one. */
  lemma FilterPicks<T(!new)>(s: seq<T>, keep: T -> bool, places: seq<nat>)
    requires Places(s, keep, places)
    ensures LieAt(s, places, Filter(s, keep))
  {
    hide Filter, Places, LieAt;
    NothingKept(s, keep, places);
    var m := 0;
    for n := 0 to |s|
      invariant Reached(places, m, n) && LieAt(s, places[..m], Filter(s[..n], keep))
    {
      FilterNext(s, keep, n);
      NextPlace(s, keep, places, m, n);
      if keep(s[n]) {
        OneMoreKept(s, places, m, Filter(s[..n], keep));
        m := m + 1;
      }
    }
    AllPlaces(s, keep, places, m);
    assert s[..|s|] == s && places[..|places|] == places;
  }

  // the first m places are those before n
  ghost predicate Reached(places: seq<nat>, m: nat, n: nat) {
    m <= |places| && (m > 0 ==> places[m - 1] < n) && (m < |places| ==> places[m] >= n)
  }

  lemma NextPlace<T(!new)>(s: seq<T>, keep: T -> bool, places: seq<nat>, m: nat, n: nat)
    requires Places(s, keep, places) && Reached(places, m, n) && n < |s|
    ensures if keep(s[n]) then m < |places| && places[m] == n && Reached(places, m + 1, n + 1)
            else Reached(places, m, n + 1)
  {
    if keep(s[n]) {
      assert n in places;
    }
  }

  lemma OneMoreKept<T>(s: seq<T>, places: seq<nat>, m: nat, kept: seq<T>)
    requires m < |places| && places[m] < |s| && LieAt(s, places[..m], kept)
    ensures LieAt(s, places[..m + 1], kept + [s[places[m]]])
  {
    assert forall k | 0 <= k < m :: places[..m + 1][k] == places[..m][k];
  }

  lemma AllPlaces<T(!new)>(s: seq<T>, keep: T -> bool, places: seq<nat>, m: nat)
    requires Places(s, keep, places) && Reached(places, m, |s|)
    ensures m == |places|
  {
  }

  lemma NothingKept<T>(s: seq<T>, keep: T -> bool, places: seq<nat>)
    ensures LieAt(s, places[..0], Filter(s[..0], keep))
  {
  }

  lemma {:induction false} FilterAll<T(!new)>(s: seq<T>, keep: T -> bool)
    requires forall x | x in s :: keep(x)
    ensures Filter(s, keep) == s
  {
    if s == [] {
    } else {
      assert s[0] in s && forall x | x in s[1..] :: x in s;
      FilterAll(s[1..], keep);
    }
  }
}
