/** `PlaceFilterService`: the country filters over search results and the
    removal of repeated place ids, which keeps each id's first place. */
module PlaceFilter {
  import opened Seqs
  import PlaceIds
  import Places

  /** The configured target country. */
  const TargetCountry: string := "Japan"

  function CountryFilter(country: string): Places.Place -> bool {
    p => Places.IsInCountry(p, country)
  }

  /** `filterByCountry(places, country)`. */
  function FilterByCountry(places: seq<Places.Place>, country: string): (kept: seq<Places.Place>)
    ensures |kept| <= |places|
  {
    Filter(places, CountryFilter(country))
  }

  /** `filterJapanOnly(places)`: the filter with `isInJapan`. */
  function FilterJapanOnly(places: seq<Places.Place>): (kept: seq<Places.Place>)
    ensures kept == FilterByCountry(places, "Japan")
  {
    FilterExtensional(places, p => Places.IsInJapan(p), CountryFilter("Japan"));
    Filter(places, p => Places.IsInJapan(p))
  }

  /** `filterByTargetCountry(places)`: the filter with the configured country. */
  function FilterByTargetCountry(places: seq<Places.Place>): (kept: seq<Places.Place>)
    ensures kept == FilterJapanOnly(places)
  {
    FilterByCountry(places, TargetCountry)
  }

  /** The country filter keeps exactly the places whose display name ends
      with the country, each as often as it occurs, in their original order,
      and a second pass keeps everything the first one kept. */
  lemma FilterByCountrySpec(places: seq<Places.Place>, country: string)
    ensures var kept := FilterByCountry(places, country);
      && (forall i :: 0 <= i < |kept| ==> kept[i] in places && Places.IsInCountry(kept[i], country))
      && (forall i :: 0 <= i < |places| && Places.IsInCountry(places[i], country) ==> places[i] in kept)
      && IsSubsequence(kept, places)
      && FilterByCountry(kept, country) == kept
      && forall x :: multiset(kept)[x] == if Places.IsInCountry(x, country) then multiset(places)[x] else 0
  {
    FilterSpec(places, CountryFilter(country));
    FilterIsSubsequence(places, CountryFilter(country));
    FilterIdempotent(places, CountryFilter(country));
    CountryCounts(places, country);
  }

  lemma CountryCounts(places: seq<Places.Place>, country: string)
    ensures forall x :: multiset(FilterByCountry(places, country))[x] == (if Places.IsInCountry(x, country) then multiset(places)[x] else 0)
  {
    FilterMultiplicities(places, CountryFilter(country));
  }

  // ----- removing repeated ids -----

  function Id(p: Places.Place): string {
    PlaceIds.ToString(p.placeId)
  }

  /** The ids of the places, as a set. */
  function Ids(places: seq<Places.Place>): (ids: set<string>)
    decreases |places|
  {
    if places == [] then {} else Ids(places[..|places| - 1]) + {Id(places[|places| - 1])}
  }

  lemma {:induction false} IdsSpec(places: seq<Places.Place>, id: string)
    ensures id in Ids(places) <==> exists i :: 0 <= i < |places| && Id(places[i]) == id
    decreases |places|
  {
    if places != [] {
      var init := places[..|places| - 1];
      IdsSpec(init, id);
      if id in Ids(init) {
        var i :| 0 <= i < |init| && Id(init[i]) == id;
        assert places[i] == init[i];
      }
      if exists i :: 0 <= i < |places| && Id(places[i]) == id {
        var i :| 0 <= i < |places| && Id(places[i]) == id;
        if i < |init| {
          assert init[i] == places[i];
        }
      }
    }
  }

  /** What `removeDuplicates` keeps of the places seen so far: a place is
      kept when no earlier place has its id. */
  function Dedup(places: seq<Places.Place>): seq<Places.Place>
    decreases |places|
  {
    if places == [] then []
    else
      var init := places[..|places| - 1];
      var p := places[|places| - 1];
      if Id(p) in Ids(init) then Dedup(init) else Dedup(init) + [p]
  }

  /** `removeDuplicates`: a filter whose callback remembers the ids seen. */
  method RemoveDuplicates(places: seq<Places.Place>) returns (unique: seq<Places.Place>)
    ensures unique == Dedup(places)
  {
    var seen: set<string> := {};
    unique := [];
    for i := 0 to |places|
      invariant unique == Dedup(places[..i])
      invariant seen == Ids(places[..i])
    {
      var place := places[i];
      assert places[..i + 1][..i] == places[..i];
      var id := PlaceIds.ToString(place.placeId);
      if id !in seen {
        seen := seen + {id};
        unique := unique + [place];
      }
    }
    assert places[..|places|] == places;
  }

  predicate DistinctIds(places: seq<Places.Place>) {
    forall i, j :: 0 <= i < j < |places| ==> Id(places[i]) != Id(places[j])
  }

  /** The kept places have pairwise distinct ids, the same set of ids as
      the input, and appear in the input in the same order. */
  lemma DedupSpec(places: seq<Places.Place>)
    ensures DistinctIds(Dedup(places))
    ensures Ids(Dedup(places)) == Ids(places)
    ensures IsSubsequence(Dedup(places), places)
  {
    DedupIds(places);
    DedupDistinctIds(places);
    DedupSubsequence(places);
  }

  lemma {:induction false} DedupIds(places: seq<Places.Place>)
    ensures Ids(Dedup(places)) == Ids(places)
    decreases |places|
  {
    if places != [] {
      var init := places[..|places| - 1];
      var p := places[|places| - 1];
      DedupIds(init);
      var d := Dedup(init);
      if Id(p) !in Ids(init) {
        assert (d + [p])[..|d|] == d;
      }
    }
  }

  lemma {:induction false} DedupDistinctIds(places: seq<Places.Place>)
    ensures DistinctIds(Dedup(places))
    decreases |places|
  {
    if places != [] {
      var init := places[..|places| - 1];
      var p := places[|places| - 1];
      DedupDistinctIds(init);
      DedupIds(init);
      var d := Dedup(init);
      if Id(p) !in Ids(init) {
        forall i | 0 <= i < |d| ensures Id(d[i]) != Id(p) {
          IdsSpec(d, Id(d[i]));
        }
        var e := d + [p];
        forall i, j | 0 <= i < j < |e| ensures Id(e[i]) != Id(e[j]) {
          assert e[i] == d[i];
        }
      }
    }
  }

  lemma {:induction false} DedupSubsequence(places: seq<Places.Place>)
    ensures IsSubsequence(Dedup(places), places)
    decreases |places|
  {
    if places != [] {
      var init := places[..|places| - 1];
      var p := places[|places| - 1];
      DedupSubsequence(init);
      var d := Dedup(init);
      if Id(p) in Ids(init) {
        SubsequenceAppend(d, init, p);
      } else {
        SubsequenceExtend(d, init, p);
      }
      assert init + [p] == places;
    }
  }

  lemma {:induction false} SubsequenceAppend<T>(a: seq<T>, b: seq<T>, x: T)
    requires IsSubsequence(a, b)
    ensures IsSubsequence(a, b + [x])
    decreases |b|
  {
    if a != [] {
      assert (b + [x])[0] == b[0] && (b + [x])[1..] == b[1..] + [x];
      if a[0] == b[0] {
        SubsequenceAppend(a[1..], b[1..], x);
      } else {
        SubsequenceAppend(a, b[1..], x);
      }
    }
  }

  lemma {:induction false} SubsequenceExtend<T>(a: seq<T>, b: seq<T>, x: T)
    requires IsSubsequence(a, b)
    ensures IsSubsequence(a + [x], b + [x])
    decreases |b|
  {
    if b == [] {
      assert a == [];
      assert ([x] + [])[1..] == [];
    } else {
      assert (b + [x])[0] == b[0] && (b + [x])[1..] == b[1..] + [x];
      if a != [] && a[0] == b[0] {
        assert (a + [x])[1..] == a[1..] + [x];
        SubsequenceExtend(a[1..], b[1..], x);
      } else if a == [] && x == b[0] {
        assert [x][1..] == [];
      } else {
        SubsequenceExtend(a, b[1..], x);
      }
    }
  }

  /** No place before position `i` has the id of the place at `i`. */
  predicate FirstOfId(places: seq<Places.Place>, i: nat)
    requires i < |places|
  {
    forall j :: 0 <= j < i ==> Id(places[j]) != Id(places[i])
  }

  /** Every kept place is the first input place with its id. */
  lemma {:induction false} DedupKeepsFirst(places: seq<Places.Place>)
    ensures forall k :: 0 <= k < |Dedup(places)| ==>
      exists i :: 0 <= i < |places| && places[i] == Dedup(places)[k] && FirstOfId(places, i)
    decreases |places|
  {
    if places != [] {
      var n := |places| - 1;
      var init := places[..n];
      DedupKeepsFirst(init);
      var d := Dedup(places);
      forall k | 0 <= k < |d|
        ensures exists i :: 0 <= i < |places| && places[i] == d[k] && FirstOfId(places, i)
      {
        if k < |Dedup(init)| {
          assert d[k] == Dedup(init)[k];
          var i :| 0 <= i < |init| && init[i] == d[k] && FirstOfId(init, i);
          FirstOfIdPrefix(places, n, i);
          assert places[i] == init[i];
        } else {
          assert Id(places[n]) !in Ids(init) && d == Dedup(init) + [places[n]];
          FirstOfIdLast(places);
          assert places[n] == d[k];
        }
      }
      assert forall k :: 0 <= k < |d| ==> exists i :: 0 <= i < |places| && places[i] == d[k] && FirstOfId(places, i);
      assert d == Dedup(places);
    } else {
      assert Dedup(places) == [];
    }
  }

  lemma FirstOfIdPrefix(places: seq<Places.Place>, n: nat, i: nat)
    requires i < n <= |places| && FirstOfId(places[..n], i)
    ensures FirstOfId(places, i)
  {
    forall j | 0 <= j < i ensures Id(places[j]) != Id(places[i]) {
      assert places[..n][j] == places[j];
    }
  }

  lemma FirstOfIdLast(places: seq<Places.Place>)
    requires places != []
    requires Id(places[|places| - 1]) !in Ids(places[..|places| - 1])
    ensures FirstOfId(places, |places| - 1)
  {
    var n := |places| - 1;
    IdsSpec(places[..n], Id(places[n]));
    forall j | 0 <= j < n ensures Id(places[j]) != Id(places[n]) {
      assert places[..n][j] == places[j];
    }
  }

  /** A list without repeated ids is left as it is. */
  lemma {:induction false} DedupDistinct(places: seq<Places.Place>)
    requires DistinctIds(places)
    ensures Dedup(places) == places
    decreases |places|
  {
    if places != [] {
      var init := places[..|places| - 1];
      var p := places[|places| - 1];
      assert DistinctIds(init);
      DedupDistinct(init);
      IdsSpec(init, Id(p));
      assert init + [p] == places;
    }
  }

  /** Removing repeated ids twice removes nothing more. */
  lemma DedupIdempotent(places: seq<Places.Place>)
    ensures Dedup(Dedup(places)) == Dedup(places)
  {
    DedupSpec(places);
    DedupDistinct(Dedup(places));
  }
}
