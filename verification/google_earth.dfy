/**
  `GoogleEarthParser` (src/lib/parsers/google-earth.ts): the leftmost
  `@<dec>,<dec>`, then the same `/search/` pattern as Google Maps.
 */
module GoogleEarth {
  import opened Options
  import opened Strings
  import opened Numbers
  import opened Patterns
  import opened Types
  import opened Decoders

  const Name := "Google Earth"

  predicate CanParse(url: string) {
    Contains(ToLower(url), "earth.google.com")
  }

  function Parse(url: string): Option<Coordinates> {
    Outcome(Then(AtStep(url), SearchStep(url)))
  }

  /** The first `@<dec>,<dec>` wins over `/search/`. */
  lemma AtWins(url: string)
    requires AtPair(url).Some?
    ensures var (x, y) := AtPair(url).value.1;
      Parse(url).Some?
      && x.start <= x.end <= |url| && y.start <= y.end <= |url|
      && ParseFloat(url[x.start..x.end]) == Some(Parse(url).value.lat)
      && ParseFloat(url[y.start..y.end]) == Some(Parse(url).value.lng)
  {
    var (x, y) := AtPair(url).value.1;
    AtFound(url);
    assert Parse(url) == Some(Coordinates(Group(url, x), Group(url, y)));
  }

  lemma AtFound(url: string)
    requires AtPair(url).Some?
    ensures var (x, y) := AtPair(url).value.1;
      AtStep(url) == Found(Coordinates(Group(url, x), Group(url, y)))
  {
  }

  /** Without `@`, the result is the Google Maps `/search/` decoder's, with
      its separator class. */
  lemma SearchSecond(url: string)
    requires AtPair(url).None?
    ensures Parse(url) == Outcome(SearchStep(url))
  {
    assert AtStep(url) == Next;
  }

  /** Without `@`, a `/search/` match decides: lat and lng are `parseFloat`
      of its two groups. */
  lemma SearchGroups(url: string)
    requires AtPair(url).None? && Search(url).Some?
    ensures var (x, y) := Search(url).value.1;
      Parse(url).Some?
      && x.start <= x.end <= |url| && y.start <= y.end <= |url|
      && ParseFloat(url[x.start..x.end]) == Some(Parse(url).value.lat)
      && ParseFloat(url[y.start..y.end]) == Some(Parse(url).value.lng)
  {
    var (p, (x, y)) := Search(url).value;
    SearchAtSound(url, p);
    assert AtStep(url) == Next;
    assert Parse(url) == Some(Coordinates(Group(url, x), Group(url, y)));
  }

  /** Without `@`, the first `/search/` match decides. */
  lemma SearchFirst(url: string, p: nat, x: Span, y: Span)
    requires AtPair(url).None?
    requires SearchAt(url, p) == Some((x, y)) && forall q: nat :: q < p ==> SearchAt(url, q).None?
    ensures Parse(url).Some? && x.start <= x.end <= |url| && y.start <= y.end <= |url|
    ensures ParseFloat(url[x.start..x.end]) == Some(Parse(url).value.lat)
    ensures ParseFloat(url[y.start..y.end]) == Some(Parse(url).value.lng)
  {
    assert Search(url) == Some((p, (x, y)));
    SearchGroups(url);
  }

  /** Without `@`, the two texts the first `/search/` match captures are
      read back as lat and lng. */
  lemma SearchReads(url: string, x: Span, y: Span, la: string, ln: string)
    requires AtPair(url).None? && Search(url).Some? && Search(url).value.1 == (x, y)
    requires x.start <= x.end <= |url| && url[x.start..x.end] == la
    requires y.start <= y.end <= |url| && url[y.start..y.end] == ln
    ensures Parse(url).Some?
    ensures ParseFloat(la) == Some(Parse(url).value.lat) && ParseFloat(ln) == Some(Parse(url).value.lng)
  {
    SearchGroups(url);
  }

  /** The two texts the first `@` match captures are read back as lat and
      lng. */
  lemma AtReads(url: string, x: Span, y: Span, la: string, ln: string)
    requires AtPair(url).Some? && AtPair(url).value.1 == (x, y)
    requires x.start <= x.end <= |url| && url[x.start..x.end] == la
    requires y.start <= y.end <= |url| && url[y.start..y.end] == ln
    ensures Parse(url).Some?
    ensures ParseFloat(la) == Some(Parse(url).value.lat) && ParseFloat(ln) == Some(Parse(url).value.lng)
  {
    AtWins(url);
  }

  /** Both decoders need a literal decimal point. */
  lemma NeedsPoint(url: string)
    requires '.' !in url
    ensures Parse(url) == None
  {
    if AtPair(url).Some? {
      var (p, (x, y)) := AtPair(url).value;
      DecimalNeedsPoint(url, x);
    }
    if Search(url).Some? {
      var (p, (x, y)) := Search(url).value;
      SearchAtSound(url, p);
      DecimalNeedsPoint(url, x);
    }
    assert AtStep(url) == Next && SearchStep(url) == Next;
  }

  /** Integer tokens are never read: `@40,-74` and `/search/40,-74` give
      `null`. */
  lemma IntegersIgnored()
    ensures Parse("@40,-74") == None
    ensures Parse("/search/40,-74") == None
  {
    NeedsPoint("@40,-74");
    NeedsPoint("/search/40,-74");
  }
}
