/**
  `GoogleMapsParser` (src/lib/parsers/google-maps.ts): a six-step chain of
  decoders tried in a fixed order, of which the first that yields a
  coordinate wins. A decoder that throws (calling `split` on the array a
  repeated query key yields) ends the chain with `null`.
 */
module GoogleMaps {
  import opened Options
  import opened Strings
  import opened Numbers
  import opened Patterns
  import opened QueryString
  import opened Types
  import opened Decoders

  const Name := "Google Maps"

  predicate CanParse(url: string) {
    var lower := ToLower(url);
    Contains(lower, "google.com/maps") || Contains(lower, "goo.gl") || Contains(lower, "maps.app.goo.gl")
  }

  /** The `maps.app.goo.gl` test adds nothing: it contains `goo.gl`. */
  lemma CanParseIff(url: string)
    ensures CanParse(url) <==> Contains(ToLower(url), "google.com/maps") || Contains(ToLower(url), "goo.gl")
  {
    if Contains(ToLower(url), "maps.app.goo.gl") {
      assert OccursAt("maps.app.goo.gl", "goo.gl", 9);
      ContainsAt("maps.app.goo.gl", "goo.gl", 9);
      ContainsTransitive(ToLower(url), "maps.app.goo.gl", "goo.gl");
    }
  }

  /** Step 3: a truthy `q` whose text matches `^dec,\s*dec$` whole, split at
      `,`. The pattern test reads an array as its `String` form; the split
      that follows throws on it. */
  function StrictStep(q: QueryValue): Step {
    if !Truthy(q) || RawPair(JsText(q)).None? then Next
    else
      match q
      case Single(Some(t)) => StepOf(SplitPair(t, ','))
      case _ => Threw
  }

  /** Step 5: the first `!3d<dec>` and the first `!4d<dec>`, wherever they
      are. */
  function BangStep(url: string): Step {
    match (Marker(url, "!3d"), Marker(url, "!4d"))
    case (Some((_, x)), Some((_, y))) => Found(Coordinates(Group(url, x), Group(url, y)))
    case _ => Next
  }

  /** Steps 1 to 6: `/search/`, `center`, strict `q`, `@`, `!3d`/`!4d`,
      free-text `q`. */
  function Parse(url: string, free: FreeText): Option<Coordinates> {
    var query := ParseUrl(url).query;
    var center, q := Lookup(query, "center"), Lookup(query, "q");
    Outcome(
      Then(SearchStep(url),
      Then(SplitValue(center, ','),
      Then(StrictStep(q),
      Then(AtStep(url),
      Then(BangStep(url),
      FreeValue(q, free)))))))
  }

  /** A `/search/` match beats every other decoder; lat and lng are what
      `parseFloat` reads from its two groups. */
  lemma SearchWins(url: string, free: FreeText)
    requires Search(url).Some?
    ensures var (x, y) := Search(url).value.1;
      Parse(url, free).Some?
      && x.start <= x.end <= |url| && y.start <= y.end <= |url|
      && ParseFloat(url[x.start..x.end]) == Some(Parse(url, free).value.lat)
      && ParseFloat(url[y.start..y.end]) == Some(Parse(url, free).value.lng)
  {
    var (p, (x, y)) := Search(url).value;
    SearchAtSound(url, p);
    var c := Coordinates(Group(url, x), Group(url, y));
    assert SearchStep(url) == Found(c);
    assert Parse(url, free) == Some(c);
  }

  /** Without a `/search/` match, a `center` whose two halves parse wins,
      whatever `@` or `!3d` parts the URL also has. */
  lemma CenterWins(url: string, free: FreeText, t: string)
    requires Search(url).None?
    requires Lookup(ParseUrl(url).query, "center") == Single(Some(t))
    requires SplitPair(t, ',').Some?
    ensures Parse(url, free) == SplitPair(t, ',')
  {
    var c := SplitPair(t, ',').value;
    assert t != "" by {
      if t == "" {
        SplitPairAbsent(t, ',');
      }
    }
    assert SplitValue(Single(Some(t)), ',') == Found(c);
    assert SearchStep(url) == Next;
  }

  /** A repeated `center` key makes `split` throw, so the result is `null`. */
  lemma CenterArrayFails(url: string, free: FreeText)
    requires Search(url).None?
    requires Lookup(ParseUrl(url).query, "center").Many?
    ensures Parse(url, free) == None
  {
    assert SearchStep(url) == Next;
    SplitValueOther(Lookup(ParseUrl(url).query, "center"), ',');
  }

  /** `q` is read by step 3 only when its whole text is a strict pair. */
  lemma StrictNeedsPair(q: QueryValue)
    requires RawPair(JsText(q)).None?
    ensures StrictStep(q) == Next
  {
  }

  /** A strict pair `dec,\s*dec` split at its comma reads back as exactly
      the two numbers the pattern captured. */
  lemma StrictSplit(t: string, x: Span, y: Span)
    requires RawPair(t) == Some((x, y))
    ensures SplitPair(t, ',') == Some(Coordinates(Group(t, x), Group(t, y)))
  {
    RawPairIff(t, x, y);
    CutAt(t, x.end);
    StrictHead(t, x);
    StrictTail(t, x, y);
    SplitPairCons(t[..x.end], ',', t[x.end + 1..]);
  }

  /** The first number of a strict pair is the whole text before its comma. */
  lemma StrictHead(t: string, x: Span)
    requires x.start == 0 && DecimalAt(t, x)
    ensures ',' !in t[..x.end] && ParseFloat(t[..x.end]) == Some(Group(t, x))
  {
    assert t[..x.end] == t[x.start..x.end];
    ShowAvoids(Group(t, x), ',');
  }

  /** What follows the comma of a strict pair: white space, then the
      second number, with no further comma. */
  lemma StrictTail(t: string, x: Span, y: Span)
    requires RawMatch(t, x, y)
    ensures Before(t[x.end + 1..], ',') == t[x.end + 1..]
    ensures ParseFloat(t[x.end + 1..]) == Some(Group(t, y))
  {
    var ws, v := t[x.end + 1..y.start], t[y.start..y.end];
    assert t[x.end + 1..] == ws + v;
    StrictGap(t, x, y);
    StrictSecond(t, x, y);
    CommaFree(t, y);
    SpacedNumber(ws, v, Group(t, y));
  }

  /** A captured number holds no comma. */
  lemma CommaFree(t: string, y: Span)
    requires DecimalAt(t, y)
    ensures ',' !in t[y.start..y.end]
  {
    ShowAvoids(Group(t, y), ',');
  }

  /** White space followed by one printed number holds no comma, and
      `parseFloat` reads that number from it. */
  lemma SpacedNumber(ws: string, v: string, g: Num)
    requires AllSpace(ws) && ',' !in ws && ',' !in v
    requires v != [] && !IsSpace(v[0]) && ParseFloat(v) == Some(g)
    ensures Before(ws + v, ',') == ws + v
    ensures ParseFloat(ws + v) == Some(g)
  {
    ParseSkipsSpace(ws, v);
  }

  /** The second number of a strict pair does not begin with white space. */
  lemma StrictSecond(t: string, x: Span, y: Span)
    requires RawMatch(t, x, y)
    ensures y.start < y.end && !IsSpace(t[y.start..y.end][0])
  {
    assert t[y.start..y.end][0] == t[y.start];
    assert IsDigit(t[y.start]) || t[y.start] == '-';
  }

  /** The gap between the comma and the second number of a strict pair. */
  lemma StrictGap(t: string, x: Span, y: Span)
    requires RawMatch(t, x, y)
    ensures AllSpace(t[x.end + 1..y.start]) && ',' !in t[x.end + 1..y.start]
  {
    var ws := t[x.end + 1..y.start];
    forall j | 0 <= j < |ws|
      ensures IsSpace(ws[j])
    {
      assert ws[j] == t[x.end + 1 + j];
    }
  }

  /** Past `/search/` and `center`, a strict `q` pair wins over `@` and
      `!3d`, with exactly the two numbers written in it. */
  lemma StrictWins(url: string, free: FreeText, t: string, x: Span, y: Span)
    requires Search(url).None?
    requires SplitValue(Lookup(ParseUrl(url).query, "center"), ',') == Next
    requires Lookup(ParseUrl(url).query, "q") == Single(Some(t))
    requires RawPair(t) == Some((x, y))
    ensures Parse(url, free) == Some(Coordinates(Group(t, x), Group(t, y)))
  {
    StrictFound(t, x, y);
    assert SearchStep(url) == Next;
    ThirdDecides(url, free, Coordinates(Group(t, x), Group(t, y)));
  }

  /** Step 3 on a strict pair finds the two captured numbers. */
  lemma StrictFound(t: string, x: Span, y: Span)
    requires RawPair(t) == Some((x, y))
    ensures StrictStep(Single(Some(t))) == Found(Coordinates(Group(t, x), Group(t, y)))
  {
    StrictSplit(t, x, y);
    DecimalNeedsPoint(t, x);
    StrictStepOf(t, Coordinates(Group(t, x), Group(t, y)));
  }

  /** Step 3 on a non-empty strict pair is the comma split of it. */
  lemma StrictStepOf(t: string, c: Coordinates)
    requires '.' in t && RawPair(t).Some? && SplitPair(t, ',') == Some(c)
    ensures StrictStep(Single(Some(t))) == Found(c)
  {
  }

  /** When the first two steps pass on and step 3 finds c, c is the result. */
  lemma ThirdDecides(url: string, free: FreeText, c: Coordinates)
    requires SearchStep(url) == Next
    requires SplitValue(Lookup(ParseUrl(url).query, "center"), ',') == Next
    requires StrictStep(Lookup(ParseUrl(url).query, "q")) == Found(c)
    ensures Parse(url, free) == Some(c)
  {
  }

  /** Step 4 is reached only when the first three pass, and then the
      leftmost `@<dec>,<dec>` wins over `!3d`/`!4d` and the free-text
      reading. */
  lemma AtWins(url: string, free: FreeText)
    requires Search(url).None?
    requires SplitValue(Lookup(ParseUrl(url).query, "center"), ',') == Next
    requires StrictStep(Lookup(ParseUrl(url).query, "q")) == Next
    requires AtPair(url).Some?
    ensures var (p, (x, y)) := AtPair(url).value;
      AtMatch(url, p, x, y)
      && x.start <= x.end && y.start <= y.end
      && Parse(url, free).Some?
      && ParseFloat(url[x.start..x.end]) == Some(Parse(url, free).value.lat)
      && ParseFloat(url[y.start..y.end]) == Some(Parse(url, free).value.lng)
  {
    var (p, (x, y)) := AtPair(url).value;
    AtPairAtIff(url, p, x, y);
    var c := Coordinates(Group(url, x), Group(url, y));
    assert AtStep(url) == Found(c);
    assert SearchStep(url) == Next;
    AtDecides(url, free, c);
  }

  /** Once the first three decoders pass, a decoded `@` pair is the
      result. */
  lemma AtDecides(url: string, free: FreeText, c: Coordinates)
    requires SearchStep(url) == Next
    requires SplitValue(Lookup(ParseUrl(url).query, "center"), ',') == Next
    requires StrictStep(Lookup(ParseUrl(url).query, "q")) == Next
    requires AtStep(url) == Found(c)
    ensures Parse(url, free) == Some(c)
  {
  }

  /** Once the first four decoders pass, a `!3d`/`!4d` pair is the result,
      ahead of the free-text reading of `q`. */
  lemma BangDecides(url: string, free: FreeText, c: Coordinates)
    requires SearchStep(url) == Next
    requires SplitValue(Lookup(ParseUrl(url).query, "center"), ',') == Next
    requires StrictStep(Lookup(ParseUrl(url).query, "q")) == Next
    requires AtStep(url) == Next
    requires BangStep(url) == Found(c)
    ensures Parse(url, free) == Some(c)
  {
  }

  /** Step 5 is reached only when the first four pass, and then the first
      `!3d<dec>` and the first `!4d<dec>`, in either order, give lat and
      lng, whatever the free-text reading of `q` would say. */
  lemma BangWins(url: string, free: FreeText)
    requires Search(url).None?
    requires SplitValue(Lookup(ParseUrl(url).query, "center"), ',') == Next
    requires StrictStep(Lookup(ParseUrl(url).query, "q")) == Next
    requires AtPair(url).None?
    requires Marker(url, "!3d").Some? && Marker(url, "!4d").Some?
    ensures var (x, y) := (Marker(url, "!3d").value.1, Marker(url, "!4d").value.1);
      x.start <= x.end <= |url| && y.start <= y.end <= |url|
      && Parse(url, free).Some?
      && ParseFloat(url[x.start..x.end]) == Some(Parse(url, free).value.lat)
      && ParseFloat(url[y.start..y.end]) == Some(Parse(url, free).value.lng)
  {
    BangNeedsBoth(url);
    assert SearchStep(url) == Next;
    assert AtStep(url) == Next;
    BangDecides(url, free, BangStep(url).coords);
  }

  /** Step 5 decides exactly when both `!3d<dec>` and `!4d<dec>` occur, in
      either order; lat comes from the first `!3d`, lng from the first
      `!4d`. */
  lemma BangNeedsBoth(url: string)
    ensures BangStep(url).Found? <==> Marker(url, "!3d").Some? && Marker(url, "!4d").Some?
    ensures BangStep(url).Found? ==>
      var (x, y) := (Marker(url, "!3d").value.1, Marker(url, "!4d").value.1);
      x.start <= x.end <= |url| && y.start <= y.end <= |url|
      && ParseFloat(url[x.start..x.end]) == Some(BangStep(url).coords.lat)
      && ParseFloat(url[y.start..y.end]) == Some(BangStep(url).coords.lng)
  {
  }

  /** `!4d` before `!3d` still decodes. */
  lemma BangEitherOrder()
    ensures BangStep("!4d2.5!3d1.5")
      == Found(Coordinates(Finite(false, "1", "5", NoExponent), Finite(false, "2", "5", NoExponent)))
  {
    LatMarkerSecond();
    LngMarkerFirst();
    BangNums();
  }

  lemma BangNums()
    ensures DecimalAt("!4d2.5!3d1.5", Span(9, 12)) && DecimalAt("!4d2.5!3d1.5", Span(3, 6))
    ensures NumAt("!4d2.5!3d1.5", Span(9, 12)) == Finite(false, "1", "5", NoExponent)
    ensures NumAt("!4d2.5!3d1.5", Span(3, 6)) == Finite(false, "2", "5", NoExponent)
  {
    var s := "!4d2.5!3d1.5";
    ShortDecimal(s, 9);
    ShortDecimal(s, 3);
  }

  lemma LatMarkerSecond()
    ensures Marker("!4d2.5!3d1.5", "!3d") == Some((6, Span(9, 12)))
  {
    var s := "!4d2.5!3d1.5";
    forall p: nat | p < 6
      ensures MarkerAt(s, "!3d", p).None?
    {
      if p == 0 {
        assert s[p..p + 3][1] == '4';
      } else {
        assert s[p..p + 3][0] != '!';
      }
    }
    assert OccursAt(s, "!3d", 6);
    assert DigitsEnd(s, 9) == 10 && DigitsEnd(s, 11) == 12;
    MarkerFirst(s, "!3d", 6);
  }

  lemma LngMarkerFirst()
    ensures Marker("!4d2.5!3d1.5", "!4d") == Some((0, Span(3, 6)))
  {
    var s := "!4d2.5!3d1.5";
    assert OccursAt(s, "!4d", 0);
    assert DigitsEnd(s, 3) == 4 && DigitsEnd(s, 5) == 6;
    MarkerFirst(s, "!4d", 0);
  }

  /** When the first five decoders pass, the result is the free-text
      reading of a truthy `q`, and `null` for a missing, valueless or empty
      one. */
  lemma FreeDecides(url: string, free: FreeText)
    requires SearchStep(url) == Next
    requires SplitValue(Lookup(ParseUrl(url).query, "center"), ',') == Next
    requires StrictStep(Lookup(ParseUrl(url).query, "q")) == Next
    requires AtStep(url) == Next
    requires BangStep(url) == Next
    ensures var q := Lookup(ParseUrl(url).query, "q");
      Parse(url, free) == if Truthy(q) then free(JsText(q)) else None
  {
  }

  /** When every step before the free-text reading passes and that reading
      throws, the exception is swallowed and the result is `null`. */
  lemma FreeSwallowed(url: string, free: FreeText)
    requires Search(url).None?
    requires SplitValue(Lookup(ParseUrl(url).query, "center"), ',') == Next
    requires StrictStep(Lookup(ParseUrl(url).query, "q")) == Next
    requires AtPair(url).None?
    requires BangStep(url) == Next
    requires free(JsText(Lookup(ParseUrl(url).query, "q"))) == None
    ensures Parse(url, free) == None
  {
    assert SearchStep(url) == Next;
    assert AtStep(url) == Next;
  }
}
