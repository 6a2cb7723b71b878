/**
  The extraction pipeline, source labelling and link generation of
  src/lib/geo-utils.ts.
 */
module GeoUtils {
  import opened Options
  import opened Strings
  import opened Numbers
  import opened Patterns
  import opened Types
  import opened Parsers

  /** `{ coords, error }`. */
  datatype Extraction = Extraction(coords: Option<Coordinates>, error: string)

  const NotFound := "Could not extract coordinates. Please ensure it is a valid map URL or Coordinate pair."
  const InvalidFormat := "Invalid URL format."

  /** `extractCoordinates`: the empty text, then a bare `lat, lng` pair, then
      the registry walk, then the generic `@lat,lng` scan. Nothing in it can
      throw (every parser catches its own exceptions), so its `catch` and
      `InvalidFormat` are never reached. */
  function ExtractCoordinates(input: string, free: FreeText): Extraction {
    if input == "" then Extraction(None, "")
    else
      var trimmed := Trim(input);
      match RawPair(trimmed)
      case Some((x, y)) => Extraction(Some(Coordinates(Group(trimmed, x), Group(trimmed, y))), "")
      case None =>
        match Walk(trimmed, free)
        case Some((_, c)) => Extraction(Some(c), "")
        case None =>
          match AtPair(trimmed)
          case Some((_, (x, y))) => Extraction(Some(Coordinates(Group(trimmed, x), Group(trimmed, y))), "")
          case None => Extraction(None, NotFound)
  }

  /** Empty input is caught before trimming and gives no coordinate and no
      message. */
  lemma EmptyInput(free: FreeText, isUrl: string -> bool)
    ensures ExtractCoordinates("", free) == Extraction(None, "")
    ensures DetectSource("", isUrl) == ""
  {
  }

  /** A trimmed text that is a bare pair gives exactly its two numbers, and
      no parser is consulted: the free-text parser plays no part. */
  lemma RawFirst(input: string, free: FreeText, other: FreeText)
    requires input != "" && RawPair(Trim(input)).Some?
    ensures var t := Trim(input);
      var (x, y) := RawPair(t).value;
      ExtractCoordinates(input, free).coords.Some?
      && x.start <= x.end <= |t| && y.start <= y.end <= |t|
      && ParseFloat(t[x.start..x.end]) == Some(ExtractCoordinates(input, free).coords.value.lat)
      && ParseFloat(t[y.start..y.end]) == Some(ExtractCoordinates(input, free).coords.value.lng)
    ensures ExtractCoordinates(input, free) == ExtractCoordinates(input, other)
  {
  }

  /** Past the bare pair, the answer is the first parser in registry order
      that both accepts and decodes; accepting parsers that return `null`
      are passed over. */
  lemma RegistryDecides(input: string, free: FreeText, i: nat)
    requires input != "" && RawPair(Trim(input)).None?
    requires i < |Registry| && CanParse(Registry[i], Trim(input))
    requires Parse(Registry[i], Trim(input), free).Some?
    requires forall j :: 0 <= j < i ==> Attempt(Registry[j], Trim(input), free).None?
    ensures ExtractCoordinates(input, free) == Extraction(Parse(Registry[i], Trim(input), free), "")
  {
    var t := Trim(input);
    var attempt := (p: Parser) => Attempt(p, t, free);
    assert forall p :: attempt(p) == Attempt(p, t, free);
    FirstDecodedAt(Registry, attempt, i);
    assert Walk(t, free) == FirstDecoded(Registry, attempt);
  }

  /** The generic `@lat,lng` scan is used only when no parser produced a
      coordinate. */
  lemma FallbackOnlyAfterParsers(input: string, free: FreeText)
    requires input != "" && RawPair(Trim(input)).None?
    ensures Walk(Trim(input), free).Some? ==>
      ExtractCoordinates(input, free) == Extraction(Some(Walk(Trim(input), free).value.1), "")
    ensures Walk(Trim(input), free).None? ==>
      ExtractCoordinates(input, free).coords.Some? == AtPair(Trim(input)).Some?
  {
  }

  /** A message is given exactly when a non-empty input yields no
      coordinate, and it is always the "Could not extract" one. */
  lemma ErrorIff(input: string, free: FreeText)
    ensures var r := ExtractCoordinates(input, free);
      (r.error == "" <==> input == "" || r.coords.Some?)
      && (r.error != "" ==> r.error == NotFound)
      && r.error != InvalidFormat
  {
  }

  /** White space alone is not the empty input: it is trimmed to nothing
      and ends with the "Could not extract" message. */
  lemma SpacesOnly(input: string, free: FreeText)
    requires input != "" && AllSpace(input)
    ensures ExtractCoordinates(input, free) == Extraction(None, NotFound)
  {
    TrimEmptyIff(input);
    assert Trim(input) == "";
    EmptyText(free);
  }

  /** The empty text is no pair, no parser accepts it and it holds no `@`. */
  lemma EmptyText(free: FreeText)
    ensures RawPair("").None? && Walk("", free).None? && AtPair("").None?
  {
    assert RawPair("").None? by {
      assert DecimalFrom("", 0).None?;
    }
    EmptyWalk(free);
    assert AtPair("").None? by {
      assert forall p: nat :: AtPairAt("", p).None?;
    }
  }

  /** No parser of the registry accepts the empty text. */
  lemma EmptyWalk(free: FreeText)
    ensures Walk("", free).None?
  {
    forall j | 0 <= j < |Registry|
      ensures Attempt(Registry[j], "", free).None?
    {
      EmptyRejected(Registry[j]);
    }
  }

  lemma EmptyRejected(p: Parser)
    ensures !CanParse(p, "")
  {
    assert ToLower("") == "";
  }

  /** `detectSource`: `isUrl` stands for `new URL(input)` not throwing. */
  function DetectSource(input: string, isUrl: string -> bool): string {
    if input == "" then ""
    else
      var trimmed := Trim(input);
      if RawPair(trimmed).Some? then "Raw Coordinates"
      else
        match FirstAccepting(Registry, trimmed)
        case Some(i) => Name(Registry[i])
        case None => if isUrl(input) then "Unknown Source" else ""
  }

  /** The label texts are pairwise distinct. */
  lemma LabelsDistinct(p: Parser)
    ensures Name(p) != "Raw Coordinates" && Name(p) != "Unknown Source" && Name(p) != ""
  {
    assert |Name(p)| <= 13;
  }

  /** "Raw Coordinates" is given exactly for the bare pair, which
      extraction then reads. */
  lemma RawLabel(input: string, isUrl: string -> bool, free: FreeText)
    ensures DetectSource(input, isUrl) == "Raw Coordinates" <==> input != "" && RawPair(Trim(input)).Some?
    ensures DetectSource(input, isUrl) == "Raw Coordinates" ==> ExtractCoordinates(input, free).coords.Some?
  {
    if input != "" && RawPair(Trim(input)).None? {
      match FirstAccepting(Registry, Trim(input))
      case Some(i) => LabelsDistinct(Registry[i]);
      case None =>
    }
  }

  /** A parser's name is given exactly when it is the first parser whose
      `canParse` accepts the trimmed text, so the label always agrees with
      that parser's `canParse`. */
  lemma ParserLabel(input: string, isUrl: string -> bool, p: Parser)
    ensures DetectSource(input, isUrl) == Name(p) <==>
      input != "" && RawPair(Trim(input)).None?
      && FirstAccepting(Registry, Trim(input)) == Some(Position(p))
  {
    LabelsDistinct(p);
    RegistryDistinct();
    if input != "" && RawPair(Trim(input)).None? {
      match FirstAccepting(Registry, Trim(input))
      case Some(i) =>
        if i != Position(p) {
          assert Name(Registry[i]) != Name(Registry[Position(p)]) by {
            if i < Position(p) {
            } else {
            }
          }
        }
      case None =>
    }
  }

  /** "Unknown Source" is given when no parser accepts a text that is not a
      bare pair but is a URL; otherwise such a text gets the empty label. */
  lemma UnknownLabel(input: string, isUrl: string -> bool)
    requires input != "" && RawPair(Trim(input)).None?
    requires FirstAccepting(Registry, Trim(input)).None?
    ensures DetectSource(input, isUrl) == (if isUrl(input) then "Unknown Source" else "")
  {
  }

  /** A text that Google Maps accepts is labelled "Google Maps", whatever
      other parser accepts it too. */
  lemma GoogleLabel(input: string, isUrl: string -> bool)
    requires input != "" && RawPair(Trim(input)).None?
    requires GoogleMaps.CanParse(Trim(input))
    ensures DetectSource(input, isUrl) == "Google Maps"
  {
    GoogleFirst(Trim(input));
  }

  /** `getProviderLinks`: no coordinate gives no links; otherwise eight
      links in a fixed order. Each link is a template over the two numbers
      as `${...}` prints them. */
  function ProviderLinks(coords: Option<Coordinates>): seq<Provider> {
    match coords
    case None => []
    case Some(c) =>
      var la, ln := Show(c.lat), Show(c.lng);
      [ Provider("Apple Maps", AppleLink(la, ln), "#000000"),
        Provider("Google Earth", EarthLink(la, ln), "#1a73e8"),
        Provider("Google Maps", GoogleLink(la, ln), "#34a853"),
        Provider("Waze", WazeLink(la, ln), "#33ccff"),
        Provider("OpenStreetMap", OsmLink(la, ln), "#7ad07a"),
        Provider("Bing Maps", BingLink(la, ln), "#008374"),
        Provider("Yandex Maps", YandexLink(la, ln), "#fc3f1d"),
        Provider("Here WeGo", HereLink(la, ln), "#00afaa") ]
  }

  function AppleLink(la: string, ln: string): string {
    "http://maps.apple.com/?ll=" + la + "," + ln + "&q=" + la + "," + ln + "&z=16"
  }

  function EarthLink(la: string, ln: string): string {
    "https://earth.google.com/web/search/" + la + "," + ln
  }

  function GoogleLink(la: string, ln: string): string {
    "https://www.google.com/maps/search/?api=1&query=" + la + "," + ln
  }

  function WazeLink(la: string, ln: string): string {
    "https://waze.com/ul?ll=" + la + "," + ln + "&navigate=yes"
  }

  function OsmLink(la: string, ln: string): string {
    "https://www.openstreetmap.org/?mlat=" + la + "&mlon=" + ln + "#map=16/" + la + "/" + ln
  }

  function BingLink(la: string, ln: string): string {
    "https://www.bing.com/maps?cp=" + la + "~" + ln + "&lvl=16&sp=point." + la + "_" + ln + "_Pin"
  }

  /** The one link that writes lng before lat. */
  function YandexLink(la: string, ln: string): string {
    "https://yandex.com/maps/?pt=" + ln + "," + la + "&z=16&l=map"
  }

  function HereLink(la: string, ln: string): string {
    "https://wego.here.com/search/" + la + "," + ln
  }

  /** The names of a list of links, in order. */
  function Names(ps: seq<Provider>): (r: seq<string>)
    ensures |r| == |ps| && forall i :: 0 <= i < |ps| ==> r[i] == ps[i].name
  {
    seq(|ps|, i requires 0 <= i < |ps| => ps[i].name)
  }

  /** No coordinate, no links; a coordinate gives some. */
  lemma LinksNone(coords: Option<Coordinates>)
    ensures coords.None? <==> ProviderLinks(coords) == []
  {
  }

  /** A coordinate gives one link per provider, in the order Apple Maps,
      Google Earth, Google Maps, Waze, OpenStreetMap, Bing Maps, Yandex
      Maps, Here WeGo. */
  lemma LinksInOrder(c: Coordinates)
    ensures Names(ProviderLinks(Some(c))) == LinkNames
  {
  }

  const LinkNames := ["Apple Maps", "Google Earth", "Google Maps", "Waze",
                      "OpenStreetMap", "Bing Maps", "Yandex Maps", "Here WeGo"]
}
