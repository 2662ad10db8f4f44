/** `NominatimApiClient.transformToPlace`: how one record of the geocoding
    service's JSON answer becomes a `Place`. Fields the JSON may omit are
    `Option`s; `lat`/`lon` of `None` stand for both `undefined` and `null`. */
module Nominatim {
  import opened Wrappers
  import opened Errors
  import Strings
  import PlaceIds
  import Coordinates
  import Places

  datatype Names = Names(name: Option<string>)

  /** `geometry.coordinates`, a GeoJSON position: longitude first. */
  datatype Geometry = Geometry(coordinates: Option<(real, real)>)

  /** A search or details record (`place_id`, `osm_id`, `name`, `names`,
      `display_name`, `type`, `lat`, `lon`, `geometry`). */
  datatype Response = Response(
    placeId: int,
    osmId: int,
    name: Option<string>,
    names: Option<Names>,
    displayName: string,
    addressType: string,
    lat: Option<real>,
    lon: Option<real>,
    geometry: Option<Geometry>)

  predicate HasGeometry(item: Response) {
    item.geometry.Some? && item.geometry.value.coordinates.Some?
  }

  /** `item.name || item.names?.name || ''`: the first non-empty name. */
  function PlaceName(item: Response): (name: string)
    ensures item.name.Some? && item.name.value != "" ==> name == item.name.value
    ensures name == "" || name == item.name.GetOr("") ||
      (item.names.Some? && item.names.value.name == Some(name))
    ensures name == "" <==>
      && (item.name.None? || item.name.value == "")
      && (item.names.None? || item.names.value.name.None? || item.names.value.name.value == "")
  {
    if item.name.Some? && item.name.value != "" then item.name.value
    else if item.names.Some? && item.names.value.name.Some? && item.names.value.name.value != "" then
      item.names.value.name.value
    else ""
  }

  /** The `(lat, lon)` the record is placed at: its own `lat` and `lon`
      when both are there, else the geometry's position with its two
      components swapped, else (0, 0). */
  function Position(item: Response): (p: (real, real))
    ensures item.lat.Some? && item.lon.Some? ==> p == (item.lat.value, item.lon.value)
    ensures !(item.lat.Some? && item.lon.Some?) && HasGeometry(item) ==>
      var (x, y) := item.geometry.value.coordinates.value; p == (y, x)
    ensures !(item.lat.Some? && item.lon.Some?) && !HasGeometry(item) ==> p == (0.0, 0.0)
  {
    if item.lat.Some? && item.lon.Some? then (item.lat.value, item.lon.value)
    else if HasGeometry(item) then
      var (lon, lat) := item.geometry.value.coordinates.value;
      (lat, lon)
    else (0.0, 0.0)
  }

  /** `transformToPlace(item)`: succeeds exactly when the chosen position
      is in range (the decimal id is never blank), fails with the
      coordinate error otherwise, and copies every field it keeps. */
  function TransformToPlace(item: Response): (r: Result<Places.Place, ValidationError>)
    ensures var (lat, lon) := Position(item);
      && (r.Success? <==> Coordinates.Valid(Coordinates.Coordinates(lat, lon)))
      && (r.Failure? ==> r.error == if -90.0 <= lat <= 90.0 then InvalidLongitude(lon) else InvalidLatitude(lat))
    ensures r.Success? ==>
      && Places.Valid(r.value)
      && PlaceIds.ToString(r.value.placeId) == Strings.IntToDecimal(item.placeId)
      && r.value.osmId == Strings.IntToDecimal(item.osmId)
      && r.value.name == PlaceName(item)
      && r.value.displayName == item.displayName
      && r.value.addressType == item.addressType
      && (r.value.Lat(), r.value.Lon()) == Position(item)
  {
    var (lat, lon) := Position(item);
    var id := Strings.IntToDecimal(item.placeId);
    assert !Strings.IsWhitespace(id[0]);
    match PlaceIds.FromString(id)
    case Failure(e) => Failure(e)
    case Success(placeId) =>
      match Coordinates.New(lat, lon)
      case Failure(e) => Failure(e)
      case Success(c) =>
        Success(Places.Place(placeId, Strings.IntToDecimal(item.osmId), PlaceName(item), item.displayName, item.addressType, c))
  }

  /** The identifiers of the place read back as the record's numbers. */
  lemma IdsRoundTrip(item: Response)
    requires TransformToPlace(item).Success?
    ensures var p := TransformToPlace(item).value;
      && Strings.ParseInt(PlaceIds.ToString(p.placeId)) == Some(item.placeId)
      && Strings.ParseInt(p.osmId) == Some(item.osmId)
  {
    Strings.DecimalRoundTrip(item.placeId);
    Strings.DecimalRoundTrip(item.osmId);
  }

  /** A record without any position is placed at (0, 0), which is in range,
      so it always becomes a place. */
  lemma NoPositionAtOrigin(item: Response)
    requires !(item.lat.Some? && item.lon.Some?) && !HasGeometry(item)
    ensures TransformToPlace(item).Success?
    ensures TransformToPlace(item).value.coordinates == Coordinates.Coordinates(0.0, 0.0)
  {
  }

  /** The transformed place survives the object round trip of `Place`. */
  lemma TransformedRoundTrip(item: Response)
    requires TransformToPlace(item).Success?
    ensures Places.FromObject(Places.ToObject(TransformToPlace(item).value)) == TransformToPlace(item)
  {
    Places.ObjectRoundTrip(TransformToPlace(item).value);
  }
}
