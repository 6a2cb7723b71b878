/**
  `GeoUriParser` (src/lib/parsers/geo-uri.ts): a `geo:` URI, the subset of
  the syntax of section 3.3 of RFC 5870 that names a latitude and a
  longitude. The scheme is removed, the text from the first `?` on is
  dropped, and lat and lng are the first two `,`-separated parts; a
  `;param` tail after the longitude is ignored because `parseFloat` reads a
  prefix.
 */
module GeoUri {
  import opened Options
  import opened Strings
  import opened Numbers
  import opened Types
  import opened Decoders

  const Name := "Geo URI"

  predicate CanParse(url: string) {
    StartsWith(ToLower(url), "geo:")
  }

  /** A leading `geo:`, in any letter case, removed. */
  function StripScheme(url: string): string {
    if |url| >= 4 && ToLower(url[..4]) == "geo:" then url[4..] else url
  }

  /** The text before the first `?`, split at `,`: the first two pieces are
      lat and lng, and both must parse. */
  function Parse(url: string): Option<Coordinates> {
    var coordsPart := Before(StripScheme(url), '?');
    SplitPair(coordsPart, ',')
  }

  /** The scheme is removed exactly when `canParse` accepts, in any case. */
  lemma StripIff(url: string)
    ensures CanParse(url) ==> StripScheme(url) == url[4..]
    ensures !CanParse(url) ==> StripScheme(url) == url
  {
    if |url| >= 4 {
      assert ToLower(url)[..4] == ToLower(url[..4]);
    }
  }

  /** Everything from the first `?` on is ignored. */
  lemma QueryIgnored(a: string, b: string)
    requires '?' !in a
    ensures Parse("geo:" + a + "?" + b) == Parse("geo:" + a)
  {
    assert StripScheme("geo:" + a + "?" + b) == a + "?" + b by {
      assert ("geo:" + a + "?" + b)[..4] == "geo:";
      assert ("geo:" + a + "?" + b)[4..] == a + "?" + b;
    }
    assert StripScheme("geo:" + a) == a by {
      assert ("geo:" + a)[..4] == "geo:";
      assert ("geo:" + a)[4..] == a;
    }
    assert a + "?" + b == a + ['?'] + b;
    BeforeCons(a, '?', b);
  }

  /** lat is read from the text before the first `,` and lng from the text
      up to the next `,` (or `?`); an altitude or anything later is
      ignored. */
  lemma Components(la: string, rest: string)
    requires ',' !in la && '?' !in la
    ensures Parse("geo:" + la + "," + rest) == Both(ParseFloat(la), ParseFloat(Before(Before(rest, '?'), ',')))
  {
    var u := "geo:" + la + "," + rest;
    assert StripScheme(u) == la + "," + rest by {
      assert u[..4] == "geo:";
      assert u[4..] == la + "," + rest;
    }
    assert '?' !in la + ",";
    BeforeAppend(la + ",", '?', rest);
    assert la + "," + Before(rest, '?') == la + [','] + Before(rest, '?');
    SplitPairCons(la, ',', Before(rest, '?'));
  }

  /** Both numbers must parse. */
  lemma NaNGivesNull(la: string, rest: string)
    requires ',' !in la && '?' !in la
    requires ParseFloat(la).None? || ParseFloat(Before(Before(rest, '?'), ',')).None?
    ensures Parse("geo:" + la + "," + rest) == None
  {
    Components(la, rest);
  }

  /** A printed pair with an altitude, `;` parameters or a `?` query after
      it reads back as the same numbers. */
  lemma PrintedPair(lat: Num, lng: Num, tail: string)
    requires Valid(lat) && Valid(lng)
    requires tail == [] || tail[0] == ',' || tail[0] == ';' || tail[0] == '?'
    ensures Parse("geo:" + Show(lat) + "," + Show(lng) + tail) == Some(Coordinates(lat, lng))
  {
    ShowAvoids(lat, ',');
    ShowAvoids(lat, '?');
    ShowAvoids(lng, ',');
    ShowAvoids(lng, '?');
    assert "geo:" + Show(lat) + "," + Show(lng) + tail == "geo:" + Show(lat) + "," + (Show(lng) + tail);
    Components(Show(lat), Show(lng) + tail);
    BeforeAppend(Show(lng), '?', tail);
    BeforeAppend(Show(lng), ',', Before(tail, '?'));
    var cut := Before(Before(tail, '?'), ',');
    assert cut == [] || cut[0] == ';' by {
      if cut != [] {
        assert Before(tail, '?')[0] == cut[0] && tail[0] == cut[0];
      }
    }
    ParseShow(lng, cut);
    ParseShowExact(lat);
  }
}
