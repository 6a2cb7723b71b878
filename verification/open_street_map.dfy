/**
  `OpenStreetMapParser` (src/lib/parsers/open-street-map.ts): the `mlat`
  and `mlon` query values, then a `#map=<zoom>/<lat>/<lng>` fragment read
  from the `url` field of the parsed URL. That field never holds a `#`, so
  the fragment decoder never decides.
 */
module OpenStreetMap {
  import opened Options
  import opened Strings
  import opened Numbers
  import opened QueryString
  import opened Types
  import opened Decoders

  const Name := "OpenStreetMap"

  predicate CanParse(url: string) {
    Contains(ToLower(url), "openstreetmap.org")
  }

  /** Truthy `mlat` and `mlon`, each read by `parseFloat` (which reads an
      array as its `String` form). */
  function MarkStep(mlat: QueryValue, mlon: QueryValue): Step {
    if Truthy(mlat) && Truthy(mlon) then StepOf(Both(ParseFloat(JsText(mlat)), ParseFloat(JsText(mlon))))
    else Next
  }

  /** The text between the first and the second `#`, handed to the fragment
      decoder when there is one. */
  function HashStep(url: string): Step {
    var pieces := Split(url, '#');
    if |pieces| < 2 then Next else FragmentStep(pieces[1])
  }

  /** A fragment starting with `map=`: `map=` removed, split at `/`, at
      least three parts, part 1 lat and part 2 lng. */
  function FragmentStep(hash: string): Step {
    if hash != "" && StartsWith(hash, "map=") then PartsStep(Split(RemoveFirst(hash, "map="), '/'))
    else Next
  }

  function PartsStep(parts: seq<string>): Step {
    if |parts| >= 3 then StepOf(Both(ParseFloat(parts[1]), ParseFloat(parts[2]))) else Next
  }

  function Parse(url: string): Option<Coordinates> {
    var parsed := ParseUrl(url);
    Outcome(Then(MarkStep(Lookup(parsed.query, "mlat"), Lookup(parsed.query, "mlon")), HashStep(parsed.url)))
  }

  /** The fragment decoder is dead: the parsed `url` has no `#`, so the
      result is the `mlat`/`mlon` decoder's alone. */
  lemma HashUnreachable(url: string)
    ensures HashStep(ParseUrl(url).url) == Next
    ensures Parse(url) == Outcome(MarkStep(Lookup(ParseUrl(url).query, "mlat"), Lookup(ParseUrl(url).query, "mlon")))
  {
  }

  /** The fragment decoder receives the text after the first `#`. */
  lemma HashAt(base: string, hash: string)
    requires '#' !in base && '#' !in hash
    ensures HashStep(base + "#" + hash) == FragmentStep(hash)
  {
    assert base + "#" + hash == base + ['#'] + hash;
    SplitCons(base, '#', hash);
  }

  /** The fragment decoder, given `map=<zoom>/<a>/<b>`: the zoom is
      ignored, lat is read from a and lng from b up to any further `/`. */
  lemma FragmentParts(zoom: string, a: string, b: string)
    requires '/' !in zoom && '/' !in a
    ensures FragmentStep("map=" + (zoom + ['/'] + (a + ['/'] + b)))
      == StepOf(Both(ParseFloat(a), ParseFloat(Before(b, '/'))))
  {
    var body := zoom + ['/'] + (a + ['/'] + b);
    var hash := "map=" + body;
    var parts := [zoom, a] + Split(b, '/');
    assert FragmentStep(hash) == PartsStep(Split(body, '/')) by {
      assert hash[..4] == "map=";
      RemoveFirstPrefix("map=", body);
    }
    SplitCons2(zoom, a, '/', b);
    assert parts[2] == Before(b, '/') by {
      SplitFirst(b, '/');
    }
  }

  /** The fragment OSM links write reads back as the same numbers. */
  lemma FragmentReads(zoom: string, lat: Num, lng: Num)
    requires '/' !in zoom
    requires Valid(lat) && Valid(lng)
    ensures FragmentStep("map=" + zoom + "/" + Show(lat) + "/" + Show(lng)) == Found(Coordinates(lat, lng))
  {
    var a, b := Show(lat), Show(lng);
    ShowAvoids(lat, '/');
    ShowAvoids(lng, '/');
    FragmentAssoc(zoom, a, b);
    FragmentParts(zoom, a, b);
    ParseShowExact(lat);
    ParseShowExact(lng);
  }

  lemma FragmentAssoc(zoom: string, a: string, b: string)
    ensures "map=" + zoom + "/" + a + "/" + b == "map=" + (zoom + ['/'] + (a + ['/'] + b))
  {
  }

  /** Non-empty `mlat` and `mlon` that parse are the answer. */
  lemma MarksWin(url: string, a: string, b: string)
    requires Lookup(ParseUrl(url).query, "mlat") == Single(Some(a)) && a != ""
    requires Lookup(ParseUrl(url).query, "mlon") == Single(Some(b)) && b != ""
    ensures Parse(url) == Both(ParseFloat(a), ParseFloat(b))
  {
    var q := ParseUrl(url).query;
    HashUnreachable(url);
    MarkOf(Lookup(q, "mlat"), Lookup(q, "mlon"), a, b);
  }

  lemma MarkOf(mlat: QueryValue, mlon: QueryValue, a: string, b: string)
    requires mlat == Single(Some(a)) && a != ""
    requires mlon == Single(Some(b)) && b != ""
    ensures Outcome(MarkStep(mlat, mlon)) == Both(ParseFloat(a), ParseFloat(b))
  {
  }

  /** A NaN in either value gives `null`. */
  lemma NaNGivesNull(url: string)
    requires var q := ParseUrl(url).query;
      ParseFloat(JsText(Lookup(q, "mlat"))).None? || ParseFloat(JsText(Lookup(q, "mlon"))).None?
    ensures Parse(url) == None
  {
  }
}
