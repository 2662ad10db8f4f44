/** `WeatherServiceLinkBuilder`: the links to the external weather services
    for a place, and to the Yamaten mountain forecast when the place has a
    mountain id. The number-to-text conversion of the template literals is
    the parameter `fmt`. */
module WeatherLinks {
  import opened Wrappers
  import Places

  /** The keys of `WEATHER_SERVICES`. */
  datatype Service = Scw | Windy | WeatherNews | Yamaten | Meteoblue

  datatype Link = Link(service: Service, name: string, url: string)

  /** `WEATHER_SERVICES[service].name`. */
  function ServiceName(service: Service): string {
    match service
    case Scw => "SuperC Weather"
    case Windy => "Windy"
    case WeatherNews => "Weather News"
    case Yamaten => "Yamaten (Mountain Weather)"
    case Meteoblue => "Meteoblue"
  }

  /** `WEATHER_SERVICES[service].baseUrl`. */
  function BaseUrl(service: Service): string {
    match service
    case Scw => "https://supercweather.com"
    case Windy => "https://www.windy.com"
    case WeatherNews => "https://weathernews.jp"
    case Yamaten => "https://i.yamatenki.co.jp"
    case Meteoblue => "https://www.meteoblue.com"
  }

  /** `WEATHER_SERVICES[service].buildUrl(lat, lon)` for the services that
      take coordinates. */
  function CoordinateUrl(service: Service, lat: real, lon: real, fmt: real -> string): (url: string)
    requires service != Yamaten
  {
    match service
    case Scw => "https://supercweather.com/?lat=" + fmt(lat) + "&lng=" + fmt(lon)
    case Windy => "https://www.windy.com/" + fmt(lat) + "/" + fmt(lon)
    case WeatherNews => "https://weathernews.jp/onebox/" + fmt(lat) + "/" + fmt(lon)
    case Meteoblue => "https://www.meteoblue.com/en/weather/week/" + fmt(lat) + "N" + fmt(lon) + "E"
  }

  /** Every coordinate URL starts with its service's base URL. */
  lemma CoordinateUrlUnderBase(service: Service, lat: real, lon: real, fmt: real -> string)
    requires service != Yamaten
    ensures BaseUrl(service) <= CoordinateUrl(service, lat, lon, fmt)
  {
  }

  /** The prefix of the Yamaten URL, to which the mountain id is appended. */
  const YamatenPrefix: string := "https://i.yamatenki.co.jp/mountain?mid="

  /** The link of a coordinate-based service (`buildSCWLink`,
      `buildWindyLink`, `buildWeatherNewsLink`, `buildMeteoblueLink`). */
  function CoordinateLink(service: Service, place: Places.Place, fmt: real -> string): (link: Link)
    requires service != Yamaten
    ensures link.service == service && link.name == ServiceName(service)
    ensures link.url == CoordinateUrl(service, place.Lat(), place.Lon(), fmt)
  {
    Link(service, ServiceName(service), CoordinateUrl(service, place.Lat(), place.Lon(), fmt))
  }

  /** `buildYamatenLink(mountainId)`: no link for a missing or empty id. */
  function YamatenLink(mountainId: Option<string>): (link: Option<Link>)
    ensures link.None? <==> mountainId.None? || mountainId.value == ""
    ensures link.Some? ==>
      && link.value.service == Yamaten
      && link.value.name == ServiceName(Yamaten)
      && YamatenPrefix <= link.value.url
      && link.value.url[|YamatenPrefix|..] == mountainId.value
  {
    match mountainId
    case None => None
    case Some(id) =>
      if id == "" then None
      else Some(Link(Yamaten, ServiceName(Yamaten), YamatenPrefix + id))
  }

  /** The services of `buildAllLinks`, in their order. */
  const CoordinateServices: seq<Service> := [Scw, Windy, WeatherNews, Meteoblue]

  /** What `buildAllLinks(place, mountainId)` returns. */
  function AllLinks(place: Places.Place, mountainId: Option<string>, fmt: real -> string): (links: seq<Link>)
    ensures |links| == if YamatenLink(mountainId).Some? then 5 else 4
  {
    var links := [
      CoordinateLink(Scw, place, fmt),
      CoordinateLink(Windy, place, fmt),
      CoordinateLink(WeatherNews, place, fmt),
      CoordinateLink(Meteoblue, place, fmt)];
    match YamatenLink(mountainId)
    case Some(link) => links + [link]
    case None => links
  }

  /** `buildAllLinks(place, mountainId)`: the four coordinate links, then
      the Yamaten link when there is one. */
  method BuildAllLinks(place: Places.Place, mountainId: Option<string>, fmt: real -> string) returns (links: seq<Link>)
    ensures links == AllLinks(place, mountainId, fmt)
  {
    links := [
      CoordinateLink(Scw, place, fmt),
      CoordinateLink(Windy, place, fmt),
      CoordinateLink(WeatherNews, place, fmt),
      CoordinateLink(Meteoblue, place, fmt)];
    var yamatenLink := YamatenLink(mountainId);
    if yamatenLink.Some? {
      links := links + [yamatenLink.value];
    }
  }

  /** The links come in the fixed service order, four of them, or five
      with the Yamaten link last exactly when the mountain id is a
      non-empty string; the first four are the coordinate links of their
      services, so they carry the service's name and a URL built from the
      place's latitude and longitude. */
  lemma AllLinksSpec(place: Places.Place, mountainId: Option<string>, fmt: real -> string)
    ensures var links := AllLinks(place, mountainId, fmt);
      && |links| == (if mountainId.Some? && mountainId.value != "" then 5 else 4)
      && (forall i :: 0 <= i < 4 ==> links[i] == CoordinateLink(CoordinateServices[i], place, fmt))
      && (|links| == 5 ==> YamatenLink(mountainId) == Some(links[4]))
  {
  }

  /** A link with the name of its service and a URL under that service's
      base URL. */
  predicate Labelled(link: Link) {
    link.name == ServiceName(link.service) && BaseUrl(link.service) <= link.url
  }

  /** Every link carries the name of its service and a URL under that
      service's base URL. */
  lemma LinksLabelled(place: Places.Place, mountainId: Option<string>, fmt: real -> string)
    ensures var links := AllLinks(place, mountainId, fmt);
      forall i :: 0 <= i < |links| ==> Labelled(links[i])
  {
    var links := AllLinks(place, mountainId, fmt);
    AllLinksSpec(place, mountainId, fmt);
    CoordinateLabelled(place, fmt);
    YamatenLabelled(mountainId);
    forall i | 0 <= i < |links| ensures Labelled(links[i]) {
      if i < 4 {
        assert links[i] == CoordinateLink(CoordinateServices[i], place, fmt);
      }
    }
  }

  lemma YamatenLabelled(mountainId: Option<string>)
    ensures YamatenLink(mountainId).Some? ==> Labelled(YamatenLink(mountainId).value)
  {
    if YamatenLink(mountainId).Some? {
      var url := YamatenLink(mountainId).value.url;
      assert BaseUrl(Yamaten) <= YamatenPrefix <= url;
    }
  }

  lemma CoordinateLabelled(place: Places.Place, fmt: real -> string)
    ensures forall i :: 0 <= i < 4 ==> Labelled(CoordinateLink(CoordinateServices[i], place, fmt))
  {
    forall i | 0 <= i < 4 ensures Labelled(CoordinateLink(CoordinateServices[i], place, fmt)) {
      var service := CoordinateServices[i];
      CoordinateUrlUnderBase(service, place.Lat(), place.Lon(), fmt);
    }
  }

  /** Two places at the same coordinates get the same links: nothing but
      the latitude and the longitude of the place goes into them. */
  lemma LinksFollowCoordinates(a: Places.Place, b: Places.Place, mountainId: Option<string>, fmt: real -> string)
    requires a.Lat() == b.Lat() && a.Lon() == b.Lon()
    ensures AllLinks(a, mountainId, fmt) == AllLinks(b, mountainId, fmt)
  {
  }
}
