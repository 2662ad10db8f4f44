/** The `Place` entity: a geocoded place with its identifier, names and
    coordinates, the country test on its display name and the Japanese
    address formatting. */
module Places {
  import opened Wrappers
  import opened Errors
  import opened Seqs
  import Strings
  import PlaceIds
  import Coordinates

  datatype Place = Place(
    placeId: PlaceIds.PlaceId,
    osmId: string,
    name: string,
    displayName: string,
    addressType: string,
    coordinates: Coordinates.Coordinates)
  {
    function Lat(): real { coordinates.lat }
    function Lon(): real { coordinates.lon }
  }

  /** The plain object of `toObject`/`fromObject` (JSON keys `place_id`,
      `osm_id`, `name`, `display_name`, `addresstype`, `lat`, `lon`). */
  datatype PlaceRecord = PlaceRecord(
    placeId: string,
    osmId: string,
    name: string,
    displayName: string,
    addressType: string,
    lat: real,
    lon: real)

  /** What every `Place` built through the value objects satisfies. */
  predicate Valid(p: Place) {
    !PlaceIds.IsBlank(p.placeId.value) && Coordinates.Valid(p.coordinates)
  }

  /** `isInCountry(country)`: the display name ends with the country. */
  predicate IsInCountry(p: Place, country: string) {
    Strings.EndsWith(p.displayName, country)
  }

  /** `isInJapan()`. */
  predicate IsInJapan(p: Place) {
    IsInCountry(p, "Japan")
  }

  /** The country name the address formatting looks for: "日本". */
  const Nihon: string := "\U{65E5}\U{672C}"

  /** `/^\d{3}-\d{4}$/`: three ASCII digits, a hyphen, four ASCII digits. */
  predicate IsPostalCode(s: string) {
    |s| == 8 && s[3] == '-' &&
    Strings.AllDigits(s[..3]) && Strings.AllDigits(s[4..])
  }

  predicate KeepsAddressPart(part: string) {
    part != Nihon && !IsPostalCode(part)
  }

  /** The comma-separated segments of the display name. */
  function Segments(p: Place): (segments: seq<string>)
    ensures |segments| >= 1
  {
    Strings.Split(p.displayName, ", ")
  }

  /** `getAddressParts()`: nothing unless the display name ends with 日本;
      otherwise the segments without the last one, with every 日本 segment
      and every postal code dropped, in their original order. */
  function AddressParts(p: Place): (parts: seq<string>)
    ensures !Strings.EndsWith(p.displayName, Nihon) ==> parts == []
    ensures forall i :: 0 <= i < |parts| ==> parts[i] != Nihon && !IsPostalCode(parts[i])
    ensures Strings.EndsWith(p.displayName, Nihon) ==>
      var kept := Segments(p)[..|Segments(p)| - 1];
      && |parts| <= |Segments(p)| - 1
      && IsSubsequence(parts, kept)
      && (forall i :: 0 <= i < |kept| && KeepsAddressPart(kept[i]) ==> kept[i] in parts)
  {
    if !Strings.EndsWith(p.displayName, Nihon) then []
    else
      var kept := Segments(p)[..|Segments(p)| - 1];
      var withoutCountry := Filter(kept, part => part != Nihon);
      var parts := Filter(withoutCountry, part => !IsPostalCode(part));
      FilterSpec(kept, part => part != Nihon);
      FilterSpec(withoutCountry, part => !IsPostalCode(part));
      FilterIsSubsequence(kept, part => part != Nihon);
      FilterIsSubsequence(withoutCountry, part => !IsPostalCode(part));
      SubsequenceTransitive(parts, withoutCountry, kept);
      parts
  }

  /** Every segment but the last that is neither 日本 nor a postal code is
      kept as often as it occurs, and nothing else is kept. */
  lemma AddressPartsCounts(p: Place)
    requires Strings.EndsWith(p.displayName, Nihon)
    ensures var kept := Segments(p)[..|Segments(p)| - 1];
      forall x :: multiset(AddressParts(p))[x] == if KeepsAddressPart(x) then multiset(kept)[x] else 0
  {
    var kept := Segments(p)[..|Segments(p)| - 1];
    var withoutCountry := Filter(kept, part => part != Nihon);
    var parts := Filter(withoutCountry, part => !IsPostalCode(part));
    assert AddressParts(p) == parts;
    FilterMultiplicities(kept, part => part != Nihon);
    FilterMultiplicities(withoutCountry, part => !IsPostalCode(part));
    forall x ensures multiset(parts)[x] == if KeepsAddressPart(x) then multiset(kept)[x] else 0 {
      assert multiset(parts)[x] == if !IsPostalCode(x) then multiset(withoutCountry)[x] else 0;
      assert multiset(withoutCountry)[x] == if x != Nihon then multiset(kept)[x] else 0;
    }
  }

  /** `getFormattedAddress()`: the address parts in reverse order, joined
      with single spaces. It is empty when there are no parts, and when no
      part holds a space, splitting it at the spaces gives the parts back,
      last part first. */
  function FormattedAddress(p: Place): (address: string)
    ensures AddressParts(p) == [] ==> address == ""
    ensures !Strings.EndsWith(p.displayName, Nihon) ==> address == ""
    ensures var parts := AddressParts(p);
      parts != [] && (forall i :: 0 <= i < |parts| ==> ' ' !in parts[i]) ==>
        Strings.Split(address, " ") == Reverse(parts)
  {
    var parts := AddressParts(p);
    if parts != [] && forall i :: 0 <= i < |parts| ==> ' ' !in parts[i] then
      JoinReversedSplits(parts);
      JoinReversed(parts)
    else
      JoinReversed(parts)
  }

  function JoinReversed(parts: seq<string>): string {
    Strings.Join(Reverse(parts), " ")
  }

  /** Splitting the reversed, space-joined parts at the spaces gives the
      parts back, last part first, whenever there is a part and none
      contains a space. */
  lemma JoinReversedSplits(parts: seq<string>)
    requires parts != []
    requires forall i :: 0 <= i < |parts| ==> ' ' !in parts[i]
    ensures Strings.Split(JoinReversed(parts), " ") == Reverse(parts)
  {
    var reversed := Reverse(parts);
    forall i | 0 <= i < |reversed| ensures ' ' !in reversed[i] {
      assert reversed[i] == parts[|parts| - 1 - i];
    }
    Strings.SplitJoin(reversed, ' ');
  }

  /** A Japanese display name of the shape "town, prefecture, postal code,
      日本": the postal code and the country are dropped. */
  lemma JapaneseAddress(p: Place, town: string, prefecture: string, postalCode: string)
    requires ',' !in town && ',' !in prefecture && ',' !in postalCode
    requires KeepsAddressPart(town) && KeepsAddressPart(prefecture) && IsPostalCode(postalCode)
    requires p.displayName == town + ", " + prefecture + ", " + postalCode + ", " + Nihon
    ensures AddressParts(p) == [town, prefecture]
  {
    ExampleSegments(town, prefecture, postalCode);
    var dn := p.displayName;
    assert dn[|dn| - 2..] == Nihon;
    var kept := [town, prefecture, postalCode];
    assert Segments(p)[..3] == kept;
    assert Filter(kept, part => part != Nihon) == kept by {
      FilterKeepsAll(kept, part => part != Nihon);
    }
    assert Filter(kept[2..], part => !IsPostalCode(part)) == [];
    assert Filter(kept[1..], part => !IsPostalCode(part)) == [prefecture];
  }

  lemma ExampleSegments(a: string, b: string, c: string)
    requires ',' !in a && ',' !in b && ',' !in c
    ensures Strings.Split(a + ", " + b + ", " + c + ", " + Nihon, ", ") == [a, b, c, Nihon]
  {
    var t2 := c + ", " + Nihon;
    var t1 := b + ", " + t2;
    Regroup(a, b, c);
    LastSegments(c);
    SplitPlain(b, t2);
    SplitPlain(a, t1);
  }

  lemma Regroup(a: string, b: string, c: string)
    ensures a + ", " + b + ", " + c + ", " + Nihon == a + ", " + (b + ", " + (c + ", " + Nihon))
  {
  }

  lemma LastSegments(c: string)
    requires ',' !in c
    ensures Strings.Split(c + ", " + Nihon, ", ") == [c, Nihon]
  {
    SplitPlain(c, Nihon);
    NihonSplit();
  }

  lemma NihonSplit()
    ensures Strings.Split(Nihon, ", ") == [Nihon]
  {
    assert Nihon[..2] != ", " && Strings.Split(Nihon[1..], ", ") == [Nihon[1..]];
    assert [Nihon[0]] + Nihon[1..] == Nihon;
  }

  /** Splitting `a + ", " + t` at ", " when `a` holds no comma. */
  lemma {:induction false} SplitPlain(a: string, t: string)
    requires ',' !in a
    ensures Strings.Split(a + ", " + t, ", ") == [a] + Strings.Split(t, ", ")
    decreases |a|
  {
    var s := a + ", " + t;
    if a == [] {
      assert s[..2] == ", " && s[2..] == t;
    } else {
      assert s[..2] != ", " by { assert s[0] == a[0]; }
      assert s[1..] == a[1..] + ", " + t;
      SplitPlain(a[1..], t);
      assert [a[0]] + a[1..] == a;
    }
  }

  function ToObject(p: Place): PlaceRecord {
    PlaceRecord(PlaceIds.ToString(p.placeId), p.osmId, p.name, p.displayName, p.addressType, p.Lat(), p.Lon())
  }

  /** `Place.fromObject`: builds the identifier first (so a blank id is the
      error reported when both fields are bad), then the coordinates. */
  function FromObject(o: PlaceRecord): (r: Result<Place, ValidationError>)
    ensures r.Success? <==>
      !(forall i :: 0 <= i < |o.placeId| ==> Strings.IsWhitespace(o.placeId[i])) &&
      Coordinates.Valid(Coordinates.Coordinates(o.lat, o.lon))
    ensures r.Success? ==> Valid(r.value) && ToObject(r.value) == o
    ensures r.Failure? ==>
      r.error == (if PlaceIds.IsBlank(o.placeId) then EmptyPlaceId
                  else if -90.0 <= o.lat <= 90.0 then InvalidLongitude(o.lon)
                  else InvalidLatitude(o.lat))
  {
    match PlaceIds.FromString(o.placeId)
    case Failure(e) => Failure(e)
    case Success(id) =>
      match Coordinates.New(o.lat, o.lon)
      case Failure(e) => Failure(e)
      case Success(c) => Success(Place(id, o.osmId, o.name, o.displayName, o.addressType, c))
  }

  /** Serialising and reading back keeps every field of a valid place. */
  lemma ObjectRoundTrip(p: Place)
    requires Valid(p)
    ensures FromObject(ToObject(p)) == Success(p)
  {
    Strings.TrimEmpty(p.placeId.value);
  }

  /** `equals`: two places are the same place when their ids are equal,
      whatever their other fields. */
  function Equals(a: Place, b: Place): (r: bool)
    ensures r <==> a.placeId == b.placeId
  {
    PlaceIds.Equals(a.placeId, b.placeId)
  }
}
