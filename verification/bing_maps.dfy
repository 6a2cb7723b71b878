/**
  `BingMapsParser` (src/lib/parsers/bing-maps.ts): the `cp` query value
  split at `~`, then the `sp` value read as `point.<lat>_<lng>_<name>`.
 */
module BingMaps {
  import opened Options
  import opened Strings
  import opened Numbers
  import opened QueryString
  import opened Types
  import opened Decoders

  const Name := "Bing Maps"

  predicate CanParse(url: string) {
    Contains(ToLower(url), "bing.com/maps")
  }

  /** The `sp` decoder: split at `_`, at least two pieces, the first
      `point.` removed from piece 0, which gives lat, and piece 1 giving
      lng. */
  function SpStep(sp: QueryValue): Step {
    if !Truthy(sp) then Next
    else
      match sp
      case Single(Some(t)) =>
        var parts := Split(t, '_');
        if |parts| >= 2 then
          StepOf(Both(ParseFloat(RemoveFirst(parts[0], "point.")), ParseFloat(parts[1])))
        else Next
      case _ => Threw
  }

  function Parse(url: string): Option<Coordinates> {
    var query := ParseUrl(url).query;
    Outcome(Then(SplitValue(Lookup(query, "cp"), '~'), SpStep(Lookup(query, "sp"))))
  }

  /** A `cp` whose two halves parse wins over `sp`. */
  lemma CpWins(url: string, t: string)
    requires Lookup(ParseUrl(url).query, "cp") == Single(Some(t))
    requires SplitPair(t, '~').Some?
    ensures Parse(url) == SplitPair(t, '~')
  {
    SplitValueSingle(t, '~');
  }

  /** An `sp` value `a_b...`: lat from `a` without its first `point.`, lng
      from `b`, later pieces ignored. */
  lemma SpReads(a: string, b: string)
    requires '_' !in a
    ensures SpStep(Single(Some(a + "_" + b)))
      == StepOf(Both(ParseFloat(RemoveFirst(a, "point.")), ParseFloat(Before(b, '_'))))
  {
    SplitCons(a, '_', b);
    assert a + "_" + b == a + ['_'] + b;
    assert Split(b, '_')[0] == Before(b, '_');
  }

  /** An `sp` with a single piece gives no coordinate. */
  lemma SpNeedsTwo(t: string)
    requires '_' !in t
    ensures SpStep(Single(Some(t))) == Next
  {
  }

  /** When neither `cp` nor `sp` decodes to a coordinate (each missing,
      empty or holding a NaN), the result is `null`. */
  lemma NothingGivesNull(url: string)
    requires SplitValue(Lookup(ParseUrl(url).query, "cp"), '~') == Next
    requires SpStep(Lookup(ParseUrl(url).query, "sp")) == Next
    ensures Parse(url) == None
  {
  }

  /** The `sp` text Bing links write decodes to the same numbers. */
  lemma SpShown(lat: Num, lng: Num, name: string)
    requires Valid(lat) && Valid(lng)
    ensures SpStep(Single(Some("point." + Show(lat) + "_" + Show(lng) + "_" + name)))
      == Found(Coordinates(lat, lng))
  {
    ShowAvoids(lat, '_');
    ShowAvoids(lng, '_');
    assert '_' !in "point." + Show(lat);
    var b := Show(lng) + "_" + name;
    assert "point." + Show(lat) + "_" + Show(lng) + "_" + name == ("point." + Show(lat)) + "_" + b;
    SpReads("point." + Show(lat), b);
    RemoveFirstPrefix("point.", Show(lat));
    BeforeCons(Show(lng), '_', name);
    assert Show(lng) + "_" + name == Show(lng) + ['_'] + name;
    ParseShowExact(lat);
    ParseShowExact(lng);
  }
}
