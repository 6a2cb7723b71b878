/**
  The parser registry (src/lib/parsers/index.ts): the seven parsers in the
  order in which extraction and source labelling consult them, and the two
  first-match walks over it.
 */
module Parsers {
  import opened Options
  import opened Types
  import GoogleMaps
  import AppleMaps
  import BingMaps
  import Waze
  import GoogleEarth
  import OpenStreetMap
  import GeoUri

  datatype Parser =
    | GoogleMapsParser
    | AppleMapsParser
    | BingMapsParser
    | WazeParser
    | GoogleEarthParser
    | OpenStreetMapParser
    | GeoUriParser

  const Registry: seq<Parser> :=
    [GoogleMapsParser, AppleMapsParser, BingMapsParser, WazeParser,
     GoogleEarthParser, OpenStreetMapParser, GeoUriParser]

  function Name(p: Parser): string {
    match p
    case GoogleMapsParser => GoogleMaps.Name
    case AppleMapsParser => AppleMaps.Name
    case BingMapsParser => BingMaps.Name
    case WazeParser => Waze.Name
    case GoogleEarthParser => GoogleEarth.Name
    case OpenStreetMapParser => OpenStreetMap.Name
    case GeoUriParser => GeoUri.Name
  }

  predicate CanParse(p: Parser, url: string) {
    match p
    case GoogleMapsParser => GoogleMaps.CanParse(url)
    case AppleMapsParser => AppleMaps.CanParse(url)
    case BingMapsParser => BingMaps.CanParse(url)
    case WazeParser => Waze.CanParse(url)
    case GoogleEarthParser => GoogleEarth.CanParse(url)
    case OpenStreetMapParser => OpenStreetMap.CanParse(url)
    case GeoUriParser => GeoUri.CanParse(url)
  }

  /** `parse`; only the Google Maps and Apple Maps parsers use the
      free-text parser. */
  function Parse(p: Parser, url: string, free: FreeText): Option<Coordinates> {
    match p
    case GoogleMapsParser => GoogleMaps.Parse(url, free)
    case AppleMapsParser => AppleMaps.Parse(url, free)
    case BingMapsParser => BingMaps.Parse(url)
    case WazeParser => Waze.Parse(url)
    case GoogleEarthParser => GoogleEarth.Parse(url)
    case OpenStreetMapParser => OpenStreetMap.Parse(url)
    case GeoUriParser => GeoUri.Parse(url)
  }

  /** Where a parser sits in the registry. */
  function Position(p: Parser): (i: nat)
    ensures i < |Registry| && Registry[i] == p
  {
    match p
    case GoogleMapsParser => 0
    case AppleMapsParser => 1
    case BingMapsParser => 2
    case WazeParser => 3
    case GoogleEarthParser => 4
    case OpenStreetMapParser => 5
    case GeoUriParser => 6
  }

  /** The registry holds each parser once, under pairwise distinct names. */
  lemma RegistryDistinct()
    ensures |Registry| == 7
    ensures forall i, j :: 0 <= i < j < |Registry| ==> Registry[i] != Registry[j]
    ensures forall i, j :: 0 <= i < j < |Registry| ==> Name(Registry[i]) != Name(Registry[j])
  {
    forall i, j | 0 <= i < j < |Registry|
      ensures Name(Registry[i]) != Name(Registry[j])
    {
      assert |Name(Registry[i])| != |Name(Registry[j])|;
    }
  }

  /** The first parser of ps whose `canParse` accepts (the walk of
      `detectSource`). */
  function FirstAccepting(ps: seq<Parser>, url: string): (r: Option<nat>)
    ensures r.Some? ==> r.value < |ps| && CanParse(ps[r.value], url)
    ensures r.Some? ==> forall j :: 0 <= j < r.value ==> !CanParse(ps[j], url)
    ensures r.None? ==> forall j :: 0 <= j < |ps| ==> !CanParse(ps[j], url)
  {
    if ps == [] then None
    else if CanParse(ps[0], url) then Some(0)
    else
      match FirstAccepting(ps[1..], url)
      case Some(i) => Some(i + 1)
      case None => None
  }

  /** What one turn of the extraction walk yields: the parser's decoding
      when it accepts the text, and nothing otherwise. */
  function Attempt(p: Parser, url: string, free: FreeText): (r: Option<Coordinates>)
    ensures r.Some? <==> CanParse(p, url) && Parse(p, url, free).Some?
    ensures r.Some? ==> r.value == Parse(p, url, free).value
  {
    if CanParse(p, url) then Parse(p, url, free) else None
  }

  /** The first coordinate that `attempt` yields for a parser of ps, with
      the parser's index (the walk of `extractCoordinates`): a parser that
      yields `null` does not end the walk. */
  function FirstDecoded(ps: seq<Parser>, attempt: Parser -> Option<Coordinates>): (r: Option<(nat, Coordinates)>)
    ensures r.Some? ==> r.value.0 < |ps| && attempt(ps[r.value.0]) == Some(r.value.1)
    ensures r.Some? ==> forall j :: 0 <= j < r.value.0 ==> attempt(ps[j]).None?
    ensures r.None? ==> forall j :: 0 <= j < |ps| ==> attempt(ps[j]).None?
  {
    if ps == [] then None
    else if attempt(ps[0]).Some? then Some((0, attempt(ps[0]).value))
    else
      match FirstDecoded(ps[1..], attempt)
      case Some(v) => Some((v.0 + 1, v.1))
      case None => None
  }

  /** The extraction walk over the registry for a text. */
  function Walk(url: string, free: FreeText): (r: Option<(nat, Coordinates)>)
    ensures r.Some? ==> r.value.0 < |Registry| && Attempt(Registry[r.value.0], url, free) == Some(r.value.1)
    ensures r.Some? ==> forall j :: 0 <= j < r.value.0 ==> Attempt(Registry[j], url, free).None?
    ensures r.None? ==> forall j :: 0 <= j < |Registry| ==> Attempt(Registry[j], url, free).None?
  {
    var attempt := (p: Parser) => Attempt(p, url, free);
    assert forall p :: attempt(p) == Attempt(p, url, free);
    FirstDecoded(Registry, attempt)
  }

  /** A parser that yields `null` passes the walk on to the next. */
  lemma NullPassesOn(ps: seq<Parser>, attempt: Parser -> Option<Coordinates>)
    requires ps != [] && attempt(ps[0]).None?
    ensures FirstDecoded(ps, attempt) ==
      match FirstDecoded(ps[1..], attempt)
      case Some(v) => Some((v.0 + 1, v.1))
      case None => None
  {
  }

  /** The walk's answer is the first parser's that yields one. */
  lemma {:induction false} FirstDecodedAt(ps: seq<Parser>, attempt: Parser -> Option<Coordinates>, i: nat)
    requires i < |ps| && attempt(ps[i]).Some?
    requires forall j :: 0 <= j < i ==> attempt(ps[j]).None?
    ensures FirstDecoded(ps, attempt) == Some((i, attempt(ps[i]).value))
  {
    if i > 0 {
      FirstDecodedAt(ps[1..], attempt, i - 1);
    }
  }

  /** Google Maps is consulted first: when it accepts, it is the label's
      parser and is offered the text before any other. */
  lemma GoogleFirst(url: string)
    requires GoogleMaps.CanParse(url)
    ensures FirstAccepting(Registry, url) == Some(0) && Registry[0] == GoogleMapsParser
  {
  }

  /** Geo URI is consulted last: a `geo:` text that another parser accepts
      is that parser's. */
  lemma GeoLast(url: string, p: Parser)
    requires CanParse(p, url) && p != GeoUriParser
    ensures FirstAccepting(Registry, url).Some?
    ensures Registry[FirstAccepting(Registry, url).value] != GeoUriParser
  {
    assert Position(p) < 6;
  }
}
