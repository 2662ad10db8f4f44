/** The `Coordinates` value object: a latitude/longitude pair validated on
    construction. Numbers are modelled as reals; how JavaScript prints a
    non-integral number is a parameter `fmt` of the string conversion. */
module Coordinates {
  import opened Wrappers
  import opened Errors
  import Strings

  datatype Coordinates = Coordinates(lat: real, lon: real)

  /** The plain object `toObject` produces and `fromObject` accepts. */
  datatype CoordinatesRecord = CoordinatesRecord(lat: real, lon: real)

  /** The range every constructed `Coordinates` satisfies (bounds inclusive). */
  predicate Valid(c: Coordinates) {
    -90.0 <= c.lat <= 90.0 && -180.0 <= c.lon <= 180.0
  }

  /** `new Coordinates(lat, lon)`: `validate` checks the latitude first, so
      when both values are out of range the latitude error is the one raised. */
  function New(lat: real, lon: real): (r: Result<Coordinates, ValidationError>)
    ensures r.Success? <==> -90.0 <= lat <= 90.0 && -180.0 <= lon <= 180.0
    ensures r.Success? ==> r.value.lat == lat && r.value.lon == lon && Valid(r.value)
    ensures !(-90.0 <= lat <= 90.0) ==> r == Failure(InvalidLatitude(lat))
    ensures -90.0 <= lat <= 90.0 && !(-180.0 <= lon <= 180.0) ==> r == Failure(InvalidLongitude(lon))
  {
    if lat < -90.0 || lat > 90.0 then Failure(InvalidLatitude(lat))
    else if lon < -180.0 || lon > 180.0 then Failure(InvalidLongitude(lon))
    else Success(Coordinates(lat, lon))
  }

  /** `equals`: both components compared with `===`. */
  function Equals(a: Coordinates, b: Coordinates): (r: bool)
    ensures r <==> a == b
  {
    a.lat == b.lat && a.lon == b.lon
  }

  lemma EqualsIsEquivalence(a: Coordinates, b: Coordinates, c: Coordinates)
    ensures Equals(a, a)
    ensures Equals(a, b) == Equals(b, a)
    ensures Equals(a, b) && Equals(b, c) ==> Equals(a, c)
  {
  }

  function ToObject(c: Coordinates): CoordinatesRecord {
    CoordinatesRecord(c.lat, c.lon)
  }

  /** `fromObject` goes through the validating constructor. */
  function FromObject(o: CoordinatesRecord): (r: Result<Coordinates, ValidationError>)
    ensures r.Success? ==> ToObject(r.value) == o
    ensures r.Success? <==> Valid(Coordinates(o.lat, o.lon))
  {
    New(o.lat, o.lon)
  }

  /** Every valid value survives `toObject` followed by `fromObject`. */
  lemma ObjectRoundTrip(c: Coordinates)
    requires Valid(c)
    ensures FromObject(ToObject(c)) == Success(c)
  {
  }

  /** `toString`: the latitude, a comma, the longitude. */
  function ToString(c: Coordinates, fmt: real -> string): string {
    fmt(c.lat) + "," + fmt(c.lon)
  }

  /** When the number format never writes a comma, cutting the string at
      its comma gives back the two printed numbers, lat first. */
  lemma ToStringSplits(c: Coordinates, fmt: real -> string)
    requires forall x: real :: ',' !in fmt(x)
    ensures Strings.Split(ToString(c, fmt), ",") == [fmt(c.lat), fmt(c.lon)]
  {
    var parts := [fmt(c.lat), fmt(c.lon)];
    assert Strings.Join(parts[1..], ",") == fmt(c.lon);
    assert Strings.Join(parts, ",") == ToString(c, fmt);
    Strings.SplitJoin(parts, ',');
  }

  /** With an injective, comma-free number format, two coordinate pairs
      print the same `"lat,lon"` string only when they are equal. */
  lemma ToStringInjective(a: Coordinates, b: Coordinates, fmt: real -> string)
    requires forall x: real :: ',' !in fmt(x)
    requires forall x: real, y: real :: fmt(x) == fmt(y) ==> x == y
    requires ToString(a, fmt) == ToString(b, fmt)
    ensures a == b
  {
    ToStringSplits(a, fmt);
    ToStringSplits(b, fmt);
  }
}
