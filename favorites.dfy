/** `LocalStorageFavoriteRepository`: the favourite places, most recently
    added first, held in storage as plain place objects under the
    favourites key. The storage adapter is the `stored` field. */
module Favorites {
  import opened Wrappers
  import opened Errors
  import opened Seqs
  import opened Storage
  import Places

  function SamePlace(place: Places.Place): Places.Place -> bool {
    fav => Places.Equals(fav, place)
  }

  /** `favorites.some(fav => fav.equals(place))`. */
  predicate Contains(favorites: seq<Places.Place>, place: Places.Place) {
    exists i :: 0 <= i < |favorites| && Places.Equals(favorites[i], place)
  }

  /** No two favourites share a place id. */
  predicate DistinctIds(favorites: seq<Places.Place>) {
    forall i, j :: 0 <= i < j < |favorites| ==> favorites[i].placeId != favorites[j].placeId
  }

  /** `data.map(item => Place.fromObject(item))`: the first stored object
      that fails validation makes the whole read fail with its error. */
  function Decode(records: seq<Places.PlaceRecord>): (r: Result<seq<Places.Place>, ValidationError>)
    ensures r.Success? ==>
      && |r.value| == |records|
      && forall i :: 0 <= i < |records| ==> Places.FromObject(records[i]) == Success(r.value[i])
    ensures r.Failure? ==>
      exists i ::
        && 0 <= i < |records|
        && Places.FromObject(records[i]) == Failure(r.error)
        && forall j :: 0 <= j < i ==> Places.FromObject(records[j]).Success?
  {
    if records == [] then Success([])
    else
      match Places.FromObject(records[0])
      case Failure(e) => Failure(e)
      case Success(first) =>
        match Decode(records[1..])
        case Failure(e) =>
          var i :| 0 <= i < |records[1..]| && Places.FromObject(records[1..][i]) == Failure(e) &&
            forall j :: 0 <= j < i ==> Places.FromObject(records[1..][j]).Success?;
          assert Places.FromObject(records[i + 1]) == Failure(e);
          Failure(e)
        case Success(rest) => Success([first] + rest)
  }

  /** `favorites.map(place => place.toObject())`, as `save` stores them. */
  function Encode(favorites: seq<Places.Place>): (records: seq<Places.PlaceRecord>)
    ensures |records| == |favorites|
    ensures forall i :: 0 <= i < |favorites| ==> records[i] == Places.ToObject(favorites[i])
  {
    if favorites == [] then [] else [Places.ToObject(favorites[0])] + Encode(favorites[1..])
  }

  predicate AllValid(favorites: seq<Places.Place>) {
    forall i :: 0 <= i < |favorites| ==> Places.Valid(favorites[i])
  }

  /** Saved favourites read back unchanged. */
  lemma DecodeEncode(favorites: seq<Places.Place>)
    requires AllValid(favorites)
    ensures Decode(Encode(favorites)) == Success(favorites)
  {
    var records := Encode(favorites);
    forall i | 0 <= i < |favorites| ensures Places.FromObject(records[i]) == Success(favorites[i]) {
      Places.ObjectRoundTrip(favorites[i]);
    }
    var r := Decode(records);
    if r.Failure? {
      var i :| 0 <= i < |records| && Places.FromObject(records[i]) == Failure(r.error);
      assert false;
    }
    assert r.value == favorites;
  }

  /** Whatever reads back successfully is made of valid places. */
  lemma DecodeValid(records: seq<Places.PlaceRecord>)
    requires Decode(records).Success?
    ensures AllValid(Decode(records).value)
  {
    var favorites := Decode(records).value;
    forall i | 0 <= i < |favorites| ensures Places.Valid(favorites[i]) {
      assert Places.FromObject(records[i]) == Success(favorites[i]);
    }
  }

  /** The list `toggle(place)` saves and what it returns: the first
      favourite with the place's id is removed and `false` returned, or,
      when there is none, the place is put in front and `true` returned. */
  function Toggled(favorites: seq<Places.Place>, place: Places.Place): (r: (seq<Places.Place>, bool))
    ensures r.1 <==> forall i :: 0 <= i < |favorites| ==> favorites[i].placeId != place.placeId
    ensures r.1 ==> r.0 == [place] + favorites
    ensures !r.1 ==>
      exists i ::
        && 0 <= i < |favorites|
        && favorites[i].placeId == place.placeId
        && (forall j :: 0 <= j < i ==> favorites[j].placeId != place.placeId)
        && r.0 == favorites[..i] + favorites[i + 1..]
  {
    var existingIndex := FindIndex(favorites, SamePlace(place));
    if existingIndex != -1 then (RemoveAt(favorites, existingIndex), false)
    else ([place] + favorites, true)
  }

  /** Toggling a place that is not a favourite twice gives the list back. */
  lemma ToggleTwice(favorites: seq<Places.Place>, place: Places.Place)
    requires !Contains(favorites, place)
    ensures Toggled(favorites, place).1
    ensures Toggled(Toggled(favorites, place).0, place) == (favorites, false)
  {
    var once := [place] + favorites;
    assert Toggled(favorites, place).0 == once;
    assert SamePlace(place)(once[0]);
    assert FindIndex(once, SamePlace(place)) == 0;
    assert RemoveAt(once, 0) == favorites;
  }

  /** On favourites with distinct ids, the place is a favourite after the
      toggle exactly when the toggle said it added it, and the ids stay
      distinct. */
  lemma ToggleThenContains(favorites: seq<Places.Place>, place: Places.Place)
    requires DistinctIds(favorites)
    ensures var (after, added) := Toggled(favorites, place);
      Contains(after, place) == added && DistinctIds(after)
  {
    var existingIndex := FindIndex(favorites, SamePlace(place));
    if existingIndex != -1 {
      RemoveDistinct(favorites, existingIndex, place);
    } else {
      PrependDistinct(favorites, place);
    }
  }

  lemma PrependDistinct(favorites: seq<Places.Place>, place: Places.Place)
    requires DistinctIds(favorites)
    requires forall i :: 0 <= i < |favorites| ==> !SamePlace(place)(favorites[i])
    ensures DistinctIds([place] + favorites) && Contains([place] + favorites, place)
  {
    var after := [place] + favorites;
    assert Places.Equals(after[0], place);
    forall i, j | 0 <= i < j < |after| ensures after[i].placeId != after[j].placeId {
      assert after[j] == favorites[j - 1];
      if i > 0 {
        assert after[i] == favorites[i - 1];
      }
    }
  }

  lemma RemoveDistinct(favorites: seq<Places.Place>, k: nat, place: Places.Place)
    requires DistinctIds(favorites)
    requires k < |favorites| && favorites[k].placeId == place.placeId
    ensures DistinctIds(RemoveAt(favorites, k)) && !Contains(RemoveAt(favorites, k), place)
  {
    var after := RemoveAt(favorites, k);
    forall i | 0 <= i < |after| ensures after[i].placeId != place.placeId {
      assert after[i] == favorites[if i < k then i else i + 1];
    }
    forall i, j | 0 <= i < j < |after| ensures after[i].placeId != after[j].placeId {
      assert after[i] == favorites[if i < k then i else i + 1];
      assert after[j] == favorites[if j < k then j else j + 1];
    }
  }

  /** A toggle with a valid place keeps every favourite valid. */
  lemma ToggledValid(favorites: seq<Places.Place>, place: Places.Place)
    requires AllValid(favorites) && Places.Valid(place)
    ensures AllValid(Toggled(favorites, place).0)
  {
    var existingIndex := FindIndex(favorites, SamePlace(place));
    var after := Toggled(favorites, place).0;
    forall i | 0 <= i < |after| ensures Places.Valid(after[i]) {
      if existingIndex != -1 {
        assert after[i] == favorites[if i < existingIndex then i else i + 1];
      } else if i > 0 {
        assert after[i] == favorites[i - 1];
      }
    }
  }

  class FavoriteRepository {
    var stored: Stored<Places.PlaceRecord>

    constructor(stored: Stored<Places.PlaceRecord>)
      ensures this.stored == stored
    {
      this.stored := stored;
    }

    /** `getAll()`: missing or non-array data reads as no favourites; a
        stored object that is not a valid place makes the read fail. */
    function GetAll(): (r: Result<seq<Places.Place>, ValidationError>)
      reads this
      ensures !stored.Items? ==> r == Success([])
      ensures stored.Items? ==> r == Decode(stored.items)
    {
      if stored.Items? then Decode(stored.items) else Success([])
    }

    /** `toggle(place)`: whether the place was added. A failed read fails
        the toggle and leaves the storage alone. */
    method Toggle(place: Places.Place) returns (r: Result<bool, ValidationError>)
      modifies this
      ensures old(GetAll()).Failure? ==> r == Failure(old(GetAll()).error) && stored == old(stored)
      ensures old(GetAll()).Success? ==>
        var (after, added) := Toggled(old(GetAll()).value, place);
        r == Success(added) && stored == Items(Encode(after))
    {
      var all := GetAll();
      if all.Failure? {
        return Failure(all.error);
      }
      var favorites := all.value;
      var existingIndex := FindIndex(favorites, SamePlace(place));
      if existingIndex != -1 {
        favorites := favorites[..existingIndex] + favorites[existingIndex + 1..];
        Save(favorites);
        return Success(false);
      } else {
        favorites := [place] + favorites;
        Save(favorites);
        return Success(true);
      }
    }

    /** `isFavorite(place)`. */
    function IsFavorite(place: Places.Place): (r: Result<bool, ValidationError>)
      reads this
      ensures GetAll().Failure? ==> r == Failure(GetAll().error)
      ensures GetAll().Success? ==> r == Success(Contains(GetAll().value, place))
    {
      match GetAll()
      case Failure(e) => Failure(e)
      case Success(favorites) => Success(exists i :: 0 <= i < |favorites| && Places.Equals(favorites[i], place))
    }

    /** `clear()`: the key is removed, so there are no favourites. */
    method Clear()
      modifies this
      ensures stored == Absent && GetAll() == Success([])
    {
      stored := Absent;
    }

    method Save(favorites: seq<Places.Place>)
      modifies this
      ensures stored == Items(Encode(favorites))
    {
      stored := Items(Encode(favorites));
    }
  }

  /** After a toggle of a valid place on stored favourites with distinct
      ids, reading back gives the toggled list, and `isFavorite` answers
      what the toggle returned. */
  lemma ToggleReadBack(records: seq<Places.PlaceRecord>, place: Places.Place)
    requires Decode(records).Success? && DistinctIds(Decode(records).value)
    requires Places.Valid(place)
    ensures var (after, added) := Toggled(Decode(records).value, place);
      Decode(Encode(after)) == Success(after) && Contains(after, place) == added
  {
    var favorites := Decode(records).value;
    DecodeValid(records);
    ToggleThenContains(favorites, place);
    ToggledValid(favorites, place);
    DecodeEncode(Toggled(favorites, place).0);
  }
}
