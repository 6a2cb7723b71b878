/**
  Links written by `getProviderLinks` and by the provider table, read back
  by the parsers of the same providers. Each link is first read at the
  level of its text, for any two printed numbers, and then for the
  printing of a coordinate.
 */
module RoundTrips {
  import opened Options
  import opened Strings
  import opened Numbers
  import opened QueryString
  import opened Types
  import opened Decoders
  import opened GeoUtils
  import Providers
  import AppleMaps
  import Waze
  import BingMaps
  import OpenStreetMap
  import GoogleEarth
  import Patterns

  /** The characters a printed number is made of. */
  predicate Printed(t: string) {
    t != [] && forall i :: 0 <= i < |t| ==> NumberChar(t[i])
  }

  lemma ShowPrinted(n: Num)
    requires Valid(n)
    ensures Printed(Show(n))
  {
    ShowChars(n);
  }

  /** A printed number needs no escaping in a query. */
  lemma PrintedPlain(t: string)
    requires Printed(t)
    ensures Plain(t)
  {
  }

  /** Two printed numbers around a plain separator need no escaping. */
  lemma PairPlain(a: string, d: char, b: string)
    requires Printed(a) && Printed(b) && PlainChar(d)
    ensures Plain(a + [d] + b)
  {
    PlainJoin(a, [d]);
    PlainJoin(a + [d], b);
  }

  lemma AppleLiterals()
    ensures "http://maps.apple.com/?ll=" == "http://maps.apple.com/" + "?" + "ll" + "="
    ensures "&q=" == "&" + "q" + "=" && "&z=" == "&" + "z" + "="
    ensures "&z=16" == "&z=" + "16"
  {
  }

  lemma AppleHostText()
    ensures OccursAt("http://maps.apple.com/", "maps.apple", 7) && ToLower("maps.apple") == "maps.apple"
  {
  }

  /** The query the Apple link writes. */
  function ApplePairs(la: string, ln: string): seq<(string, string)> {
    [("ll", la + "," + ln), ("q", la + "," + ln), ("z", "16")]
  }

  lemma AppleLinkLayout(la: string, ln: string)
    ensures AppleLink(la, ln) == "http://maps.apple.com/" + "?" + Encode(ApplePairs(la, ln)) + ""
    ensures AppleLink(la, ln) == "http://maps.apple.com/" + ("?" + Encode(ApplePairs(la, ln)) + "")
  {
    var p, v := "http://maps.apple.com/?ll=", la + "," + ln;
    AppleLiterals();
    assert AppleLink(la, ln) == p + v + "&q=" + v + "&z=" + "16";
    LayoutThree(p, "&q=", "&z=", "http://maps.apple.com/", "ll", v, "q", v, "z", "16");
  }

  lemma ApplePlain(la: string, ln: string)
    requires Printed(la) && Printed(ln)
    ensures PlainPairs(ApplePairs(la, ln))
  {
    var v := la + "," + ln;
    PairPlain(la, ',', ln);
    PlainThree("ll", v, "q", v, "z", "16");
  }

  lemma AppleLinkLl(la: string, ln: string)
    requires Printed(la) && Printed(ln)
    ensures Lookup(ParseUrl(AppleLink(la, ln)).query, "ll") == Single(Some(la + "," + ln))
  {
    AppleLinkLayout(la, ln);
    ApplePlain(la, ln);
    LinkLookup("http://maps.apple.com/", ApplePairs(la, ln), "", "ll");
  }

  lemma AppleLinkQ(la: string, ln: string)
    requires Printed(la) && Printed(ln)
    ensures Lookup(ParseUrl(AppleLink(la, ln)).query, "q") == Single(Some(la + "," + ln))
  {
    AppleLinkLayout(la, ln);
    ApplePlain(la, ln);
    FindAt(ApplePairs(la, ln), 1);
    LinkLookup("http://maps.apple.com/", ApplePairs(la, ln), "", "q");
  }

  lemma AppleLinkHost(la: string, ln: string)
    ensures AppleMaps.CanParse(AppleLink(la, ln))
  {
    AppleLinkLayout(la, ln);
    AppleHostText();
    PrefixContains("http://maps.apple.com/", "?" + Encode(ApplePairs(la, ln)) + "", "maps.apple", 7);
  }

  /** The Apple link carries the pair as both its `ll` and its `q`. */
  lemma AppleLinkQuery(la: string, ln: string)
    requires Printed(la) && Printed(ln)
    ensures AppleMaps.CanParse(AppleLink(la, ln))
    ensures var query := ParseUrl(AppleLink(la, ln)).query;
      Lookup(query, "ll") == Single(Some(la + "," + ln)) && Lookup(query, "q") == Single(Some(la + "," + ln))
  {
    AppleLinkLl(la, ln);
    AppleLinkQ(la, ln);
    AppleLinkHost(la, ln);
  }

  /** The Apple link, for any two printed numbers: the Apple parser accepts
      it and reads its `ll`, falling back to its `q`, which holds the same
      text. */
  lemma AppleLinkText(la: string, ln: string, free: FreeText)
    requires Printed(la) && Printed(ln)
    ensures AppleMaps.CanParse(AppleLink(la, ln))
    ensures var v := la + "," + ln;
      AppleMaps.Parse(AppleLink(la, ln), free)
        == if SplitPair(v, ',').Some? then SplitPair(v, ',') else Outcome(FreeValue(Single(Some(v)), free))
  {
    var v := la + "," + ln;
    AppleLinkQuery(la, ln);
    if SplitPair(v, ',').Some? {
      AppleMaps.LlWins(AppleLink(la, ln), free, v);
    } else {
      AppleMaps.LlFallsThrough(AppleLink(la, ln), free, v);
    }
  }

  /** The query the older table's Apple link writes. */
  function AppleUrlPairs(la: string, ln: string): seq<(string, string)> {
    [("ll", la + "," + ln), ("z", "16")]
  }

  lemma AppleUrlLayout(la: string, ln: string)
    ensures Providers.AppleUrl(la, ln) == "http://maps.apple.com/" + "?" + Encode(AppleUrlPairs(la, ln)) + ""
    ensures Providers.AppleUrl(la, ln) == "http://maps.apple.com/" + ("?" + Encode(AppleUrlPairs(la, ln)) + "")
  {
    var p, v := "http://maps.apple.com/?ll=", la + "," + ln;
    AppleLiterals();
    assert Providers.AppleUrl(la, ln) == p + v + "&z=" + "16" + "";
    LayoutTwo(p, "&z=", "http://maps.apple.com/", "ll", v, "z", "16", "");
  }

  lemma AppleUrlPlain(la: string, ln: string)
    requires Printed(la) && Printed(ln)
    ensures PlainPairs(AppleUrlPairs(la, ln))
    ensures Find(AppleUrlPairs(la, ln), "q") == None
  {
    PairPlain(la, ',', ln);
    PlainTwo("ll", la + "," + ln, "z", "16");
    FindAbsent(AppleUrlPairs(la, ln), "q");
  }

  lemma AppleUrlLl(la: string, ln: string)
    requires Printed(la) && Printed(ln)
    ensures Lookup(ParseUrl(Providers.AppleUrl(la, ln)).query, "ll") == Single(Some(la + "," + ln))
  {
    AppleUrlLayout(la, ln);
    AppleUrlPlain(la, ln);
    LinkLookup("http://maps.apple.com/", AppleUrlPairs(la, ln), "", "ll");
  }

  lemma AppleUrlNoQ(la: string, ln: string)
    requires Printed(la) && Printed(ln)
    ensures Lookup(ParseUrl(Providers.AppleUrl(la, ln)).query, "q") == Missing
  {
    AppleUrlLayout(la, ln);
    AppleUrlPlain(la, ln);
    LinkLookup("http://maps.apple.com/", AppleUrlPairs(la, ln), "", "q");
  }

  lemma AppleUrlHost(la: string, ln: string)
    ensures AppleMaps.CanParse(Providers.AppleUrl(la, ln))
  {
    AppleUrlLayout(la, ln);
    AppleHostText();
    PrefixContains("http://maps.apple.com/", "?" + Encode(AppleUrlPairs(la, ln)) + "", "maps.apple", 7);
  }

  /** The older table's Apple link carries `ll` and no `q`. */
  lemma AppleUrlQuery(la: string, ln: string)
    requires Printed(la) && Printed(ln)
    ensures AppleMaps.CanParse(Providers.AppleUrl(la, ln))
    ensures var query := ParseUrl(Providers.AppleUrl(la, ln)).query;
      Lookup(query, "ll") == Single(Some(la + "," + ln)) && Lookup(query, "q") == Missing
  {
    AppleUrlLl(la, ln);
    AppleUrlNoQ(la, ln);
    AppleUrlHost(la, ln);
  }

  /** Without a `q`, the older table's Apple link is decided by its `ll`
      alone. */
  lemma AppleUrlText(la: string, ln: string, free: FreeText)
    requires Printed(la) && Printed(ln)
    ensures AppleMaps.CanParse(Providers.AppleUrl(la, ln))
    ensures AppleMaps.Parse(Providers.AppleUrl(la, ln), free) == SplitPair(la + "," + ln, ',')
  {
    var u := Providers.AppleUrl(la, ln);
    var v := la + "," + ln;
    AppleUrlQuery(la, ln);
    if SplitPair(v, ',').Some? {
      AppleMaps.LlWins(u, free, v);
    } else {
      AppleMaps.NeitherGivesNull(u, free);
    }
  }

  /** Both Apple links of a coordinate read back as that coordinate. */
  lemma AppleReads(c: Coordinates, free: FreeText)
    requires Valid(c.lat) && Valid(c.lng)
    ensures var u := AppleLink(Show(c.lat), Show(c.lng));
      AppleMaps.CanParse(u) && AppleMaps.Parse(u, free) == Some(c)
    ensures var u := Providers.AppleUrl(Show(c.lat), Show(c.lng));
      AppleMaps.CanParse(u) && AppleMaps.Parse(u, free) == Some(c)
  {
    ShowPrinted(c.lat);
    ShowPrinted(c.lng);
    SplitPairShown(c.lat, c.lng, ',');
    AppleLinkText(Show(c.lat), Show(c.lng), free);
    AppleUrlText(Show(c.lat), Show(c.lng), free);
  }

  lemma WazeLiterals()
    ensures "https://waze.com/ul?ll=" == "https://waze.com/ul" + "?" + "ll" + "="
    ensures "&navigate=" == "&" + "navigate" + "=" && "&navigate=yes" == "&navigate=" + "yes"
  {
  }

  lemma WazeHostText()
    ensures OccursAt("https://waze.com/ul", "waze.com", 8) && ToLower("waze.com") == "waze.com"
  {
  }

  /** The query the Waze link writes. */
  function WazePairs(la: string, ln: string): seq<(string, string)> {
    [("ll", la + "," + ln), ("navigate", "yes")]
  }

  lemma WazeLinkLayout(la: string, ln: string)
    ensures WazeLink(la, ln) == "https://waze.com/ul" + "?" + Encode(WazePairs(la, ln)) + ""
    ensures WazeLink(la, ln) == "https://waze.com/ul" + ("?" + Encode(WazePairs(la, ln)) + "")
  {
    var p, v := "https://waze.com/ul?ll=", la + "," + ln;
    WazeLiterals();
    assert WazeLink(la, ln) == p + v + "&navigate=" + "yes" + "";
    LayoutTwo(p, "&navigate=", "https://waze.com/ul", "ll", v, "navigate", "yes", "");
  }

  lemma WazeLinkLl(la: string, ln: string)
    requires Printed(la) && Printed(ln)
    ensures Lookup(ParseUrl(WazeLink(la, ln)).query, "ll") == Single(Some(la + "," + ln))
  {
    WazeLinkLayout(la, ln);
    PairPlain(la, ',', ln);
    PlainTwo("ll", la + "," + ln, "navigate", "yes");
    LinkLookup("https://waze.com/ul", WazePairs(la, ln), "", "ll");
  }

  lemma WazeLinkHost(la: string, ln: string)
    ensures Waze.CanParse(WazeLink(la, ln))
  {
    WazeLinkLayout(la, ln);
    WazeHostText();
    PrefixContains("https://waze.com/ul", "?" + Encode(WazePairs(la, ln)) + "", "waze.com", 8);
  }

  /** The Waze link, for any two printed numbers: the Waze parser accepts
      it and splits its `ll`. */
  lemma WazeLinkText(la: string, ln: string)
    requires Printed(la) && Printed(ln)
    ensures Waze.CanParse(WazeLink(la, ln))
    ensures Waze.Parse(WazeLink(la, ln)) == SplitPair(la + "," + ln, ',')
  {
    WazeLinkLl(la, ln);
    WazeLinkHost(la, ln);
    Waze.LlDecides(WazeLink(la, ln), la + "," + ln);
  }

  /** The table's Waze, Google Maps and OpenStreetMap rows build the same
      links as `getProviderLinks`. */
  lemma TableShared(la: string, ln: string)
    ensures Providers.GoogleUrl(la, ln) == GoogleLink(la, ln)
    ensures Providers.WazeUrl(la, ln) == WazeLink(la, ln)
    ensures Providers.OsmUrl(la, ln) == OsmLink(la, ln)
  {
  }

  /** Both Waze links of a coordinate read back as that coordinate. */
  lemma WazeReads(c: Coordinates)
    requires Valid(c.lat) && Valid(c.lng)
    ensures var u := WazeLink(Show(c.lat), Show(c.lng));
      Waze.CanParse(u) && Waze.Parse(u) == Some(c)
    ensures var u := Providers.WazeUrl(Show(c.lat), Show(c.lng));
      Waze.CanParse(u) && Waze.Parse(u) == Some(c)
  {
    ShowPrinted(c.lat);
    ShowPrinted(c.lng);
    SplitPairShown(c.lat, c.lng, ',');
    WazeLinkText(Show(c.lat), Show(c.lng));
    TableShared(Show(c.lat), Show(c.lng));
  }

  lemma OsmLiterals()
    ensures "https://www.openstreetmap.org/?mlat=" == "https://www.openstreetmap.org/" + "?" + "mlat" + "="
    ensures "&mlon=" == "&" + "mlon" + "="
  {
  }

  lemma OsmHostText()
    ensures OccursAt("https://www.openstreetmap.org/", "openstreetmap.org", 12)
    ensures ToLower("openstreetmap.org") == "openstreetmap.org"
  {
  }

  /** The query and the fragment the OpenStreetMap link writes. */
  function OsmPairs(la: string, ln: string): seq<(string, string)> {
    [("mlat", la), ("mlon", ln)]
  }

  function OsmFragment(la: string, ln: string): string {
    "#map=16/" + la + "/" + ln
  }

  lemma OsmLinkLayout(la: string, ln: string)
    ensures OsmLink(la, ln) == "https://www.openstreetmap.org/" + "?" + Encode(OsmPairs(la, ln)) + OsmFragment(la, ln)
    ensures OsmLink(la, ln) == "https://www.openstreetmap.org/" + ("?" + Encode(OsmPairs(la, ln)) + OsmFragment(la, ln))
  {
    var p := "https://www.openstreetmap.org/?mlat=";
    OsmLiterals();
    assert OsmLink(la, ln) == p + la + "&mlon=" + ln + OsmFragment(la, ln);
    LayoutTwo(p, "&mlon=", "https://www.openstreetmap.org/", "mlat", la, "mlon", ln, OsmFragment(la, ln));
  }

  lemma OsmPlain(la: string, ln: string)
    requires Printed(la) && Printed(ln)
    ensures PlainPairs(OsmPairs(la, ln))
  {
    PrintedPlain(la);
    PrintedPlain(ln);
    PlainTwo("mlat", la, "mlon", ln);
  }

  lemma OsmLinkMlat(la: string, ln: string)
    requires Printed(la) && Printed(ln)
    ensures Lookup(ParseUrl(OsmLink(la, ln)).query, "mlat") == Single(Some(la))
  {
    OsmLinkLayout(la, ln);
    OsmPlain(la, ln);
    LinkLookup("https://www.openstreetmap.org/", OsmPairs(la, ln), OsmFragment(la, ln), "mlat");
  }

  lemma OsmLinkMlon(la: string, ln: string)
    requires Printed(la) && Printed(ln)
    ensures Lookup(ParseUrl(OsmLink(la, ln)).query, "mlon") == Single(Some(ln))
  {
    OsmLinkLayout(la, ln);
    OsmPlain(la, ln);
    LinkLookup("https://www.openstreetmap.org/", OsmPairs(la, ln), OsmFragment(la, ln), "mlon");
  }

  lemma OsmLinkHost(la: string, ln: string)
    ensures OpenStreetMap.CanParse(OsmLink(la, ln))
  {
    var tail := OsmFragment(la, ln);
    OsmLinkLayout(la, ln);
    OsmHostText();
    PrefixContains("https://www.openstreetmap.org/", "?" + Encode(OsmPairs(la, ln)) + tail, "openstreetmap.org", 12);
  }

  /** The OpenStreetMap link, for any two printed numbers: the parser
      accepts it and reads `mlat` and `mlon`; the fragment is not read. */
  lemma OsmLinkText(la: string, ln: string)
    requires Printed(la) && Printed(ln)
    ensures OpenStreetMap.CanParse(OsmLink(la, ln))
    ensures OpenStreetMap.Parse(OsmLink(la, ln)) == Both(ParseFloat(la), ParseFloat(ln))
  {
    OsmLinkMlat(la, ln);
    OsmLinkMlon(la, ln);
    OsmLinkHost(la, ln);
    OpenStreetMap.MarksWin(OsmLink(la, ln), la, ln);
  }

  /** Both OpenStreetMap links of a coordinate read back as that
      coordinate. */
  lemma OsmReads(c: Coordinates)
    requires Valid(c.lat) && Valid(c.lng)
    ensures var u := OsmLink(Show(c.lat), Show(c.lng));
      OpenStreetMap.CanParse(u) && OpenStreetMap.Parse(u) == Some(c)
    ensures var u := Providers.OsmUrl(Show(c.lat), Show(c.lng));
      OpenStreetMap.CanParse(u) && OpenStreetMap.Parse(u) == Some(c)
  {
    ShowPrinted(c.lat);
    ShowPrinted(c.lng);
    ParseShowExact(c.lat);
    ParseShowExact(c.lng);
    OsmLinkText(Show(c.lat), Show(c.lng));
    TableShared(Show(c.lat), Show(c.lng));
  }

  lemma BingLiterals()
    ensures "https://www.bing.com/maps?cp=" == "https://www.bing.com/maps" + "?" + "cp" + "="
    ensures "&lvl=" == "&" + "lvl" + "=" && "&sp=" == "&" + "sp" + "="
    ensures "&lvl=16&sp=point." == "&lvl=" + "16" + "&sp=" + "point." && "&lvl=16" == "&lvl=" + "16"
  {
  }

  lemma BingHostText()
    ensures OccursAt("https://www.bing.com/maps", "bing.com/maps", 12)
    ensures ToLower("bing.com/maps") == "bing.com/maps"
  {
  }

  /** The `sp` value the Bing link writes. */
  function BingPoint(la: string, ln: string): string {
    "point." + la + "_" + ln + "_Pin"
  }

  /** The query the Bing link writes. */
  function BingPairs(la: string, ln: string): seq<(string, string)> {
    [("cp", la + "~" + ln), ("lvl", "16"), ("sp", BingPoint(la, ln))]
  }

  lemma BingLinkLayout(la: string, ln: string)
    ensures BingLink(la, ln) == "https://www.bing.com/maps" + "?" + Encode(BingPairs(la, ln)) + ""
    ensures BingLink(la, ln) == "https://www.bing.com/maps" + ("?" + Encode(BingPairs(la, ln)) + "")
  {
    var p := "https://www.bing.com/maps?cp=";
    BingLiterals();
    assert BingLink(la, ln) == p + (la + "~" + ln) + "&lvl=" + "16" + "&sp=" + BingPoint(la, ln);
    LayoutThree(p, "&lvl=", "&sp=", "https://www.bing.com/maps", "cp", la + "~" + ln, "lvl", "16", "sp", BingPoint(la, ln));
  }

  lemma BingLinkPlain(la: string, ln: string)
    requires Printed(la) && Printed(ln)
    ensures PlainPairs(BingPairs(la, ln))
  {
    PairPlain(la, '~', ln);
    PairPlain(la, '_', ln);
    PlainJoin("point.", la + "_" + ln);
    PlainJoin("point." + la + "_" + ln, "_Pin");
    PlainThree("cp", la + "~" + ln, "lvl", "16", "sp", BingPoint(la, ln));
  }

  lemma BingLinkCp(la: string, ln: string)
    requires Printed(la) && Printed(ln)
    ensures Lookup(ParseUrl(BingLink(la, ln)).query, "cp") == Single(Some(la + "~" + ln))
  {
    BingLinkLayout(la, ln);
    BingLinkPlain(la, ln);
    LinkLookup("https://www.bing.com/maps", BingPairs(la, ln), "", "cp");
  }

  lemma BingLinkSp(la: string, ln: string)
    requires Printed(la) && Printed(ln)
    ensures Lookup(ParseUrl(BingLink(la, ln)).query, "sp") == Single(Some(BingPoint(la, ln)))
  {
    BingLinkLayout(la, ln);
    BingLinkPlain(la, ln);
    FindAt(BingPairs(la, ln), 2);
    LinkLookup("https://www.bing.com/maps", BingPairs(la, ln), "", "sp");
  }

  lemma BingLinkHost(la: string, ln: string)
    ensures BingMaps.CanParse(BingLink(la, ln))
  {
    BingLinkLayout(la, ln);
    BingHostText();
    PrefixContains("https://www.bing.com/maps", "?" + Encode(BingPairs(la, ln)) + "", "bing.com/maps", 12);
  }

  /** The Bing link carries `cp` as `lat~lng` and `sp` as
      `point.lat_lng_Pin`. */
  lemma BingLinkQuery(la: string, ln: string)
    requires Printed(la) && Printed(ln)
    ensures BingMaps.CanParse(BingLink(la, ln))
    ensures var query := ParseUrl(BingLink(la, ln)).query;
      Lookup(query, "cp") == Single(Some(la + "~" + ln)) && Lookup(query, "sp") == Single(Some(BingPoint(la, ln)))
  {
    BingLinkCp(la, ln);
    BingLinkSp(la, ln);
    BingLinkHost(la, ln);
  }

  /** The Bing link, for any two printed numbers: `cp` decides when its
      halves parse, and `sp` is read otherwise. */
  lemma BingLinkText(la: string, ln: string)
    requires Printed(la) && Printed(ln)
    ensures BingMaps.CanParse(BingLink(la, ln))
    ensures var v := la + "~" + ln;
      BingMaps.Parse(BingLink(la, ln))
        == if SplitPair(v, '~').Some? then SplitPair(v, '~') else Outcome(BingMaps.SpStep(Single(Some(BingPoint(la, ln)))))
  {
    var v := la + "~" + ln;
    BingLinkQuery(la, ln);
    SplitValueSingle(v, '~');
    if SplitPair(v, '~').Some? {
      BingMaps.CpWins(BingLink(la, ln), v);
    }
  }

  /** The query the older table's Bing link writes. */
  function BingUrlPairs(la: string, ln: string): seq<(string, string)> {
    [("cp", la + "~" + ln), ("lvl", "16")]
  }

  lemma BingUrlLayout(la: string, ln: string)
    ensures Providers.BingUrl(la, ln) == "https://www.bing.com/maps" + "?" + Encode(BingUrlPairs(la, ln)) + ""
    ensures Providers.BingUrl(la, ln) == "https://www.bing.com/maps" + ("?" + Encode(BingUrlPairs(la, ln)) + "")
  {
    var p := "https://www.bing.com/maps?cp=";
    BingLiterals();
    assert Providers.BingUrl(la, ln) == p + (la + "~" + ln) + "&lvl=" + "16" + "";
    LayoutTwo(p, "&lvl=", "https://www.bing.com/maps", "cp", la + "~" + ln, "lvl", "16", "");
  }

  lemma BingUrlPlain(la: string, ln: string)
    requires Printed(la) && Printed(ln)
    ensures PlainPairs(BingUrlPairs(la, ln))
    ensures Find(BingUrlPairs(la, ln), "sp") == None
  {
    PairPlain(la, '~', ln);
    PlainTwo("cp", la + "~" + ln, "lvl", "16");
    FindAbsent(BingUrlPairs(la, ln), "sp");
  }

  lemma BingUrlCp(la: string, ln: string)
    requires Printed(la) && Printed(ln)
    ensures Lookup(ParseUrl(Providers.BingUrl(la, ln)).query, "cp") == Single(Some(la + "~" + ln))
  {
    BingUrlLayout(la, ln);
    BingUrlPlain(la, ln);
    LinkLookup("https://www.bing.com/maps", BingUrlPairs(la, ln), "", "cp");
  }

  lemma BingUrlNoSp(la: string, ln: string)
    requires Printed(la) && Printed(ln)
    ensures Lookup(ParseUrl(Providers.BingUrl(la, ln)).query, "sp") == Missing
  {
    BingUrlLayout(la, ln);
    BingUrlPlain(la, ln);
    LinkLookup("https://www.bing.com/maps", BingUrlPairs(la, ln), "", "sp");
  }

  lemma BingUrlHost(la: string, ln: string)
    ensures BingMaps.CanParse(Providers.BingUrl(la, ln))
  {
    BingUrlLayout(la, ln);
    BingHostText();
    PrefixContains("https://www.bing.com/maps", "?" + Encode(BingUrlPairs(la, ln)) + "", "bing.com/maps", 12);
  }

  /** The older table's Bing link carries `cp` and no `sp`. */
  lemma BingUrlQuery(la: string, ln: string)
    requires Printed(la) && Printed(ln)
    ensures BingMaps.CanParse(Providers.BingUrl(la, ln))
    ensures var query := ParseUrl(Providers.BingUrl(la, ln)).query;
      Lookup(query, "cp") == Single(Some(la + "~" + ln)) && Lookup(query, "sp") == Missing
  {
    BingUrlCp(la, ln);
    BingUrlNoSp(la, ln);
    BingUrlHost(la, ln);
  }

  /** Both Bing links of a coordinate read back as that coordinate. */
  lemma BingReads(c: Coordinates)
    requires Valid(c.lat) && Valid(c.lng)
    ensures var u := BingLink(Show(c.lat), Show(c.lng));
      BingMaps.CanParse(u) && BingMaps.Parse(u) == Some(c)
    ensures var u := Providers.BingUrl(Show(c.lat), Show(c.lng));
      BingMaps.CanParse(u) && BingMaps.Parse(u) == Some(c)
  {
    var la, ln := Show(c.lat), Show(c.lng);
    ShowPrinted(c.lat);
    ShowPrinted(c.lng);
    SplitPairShown(c.lat, c.lng, '~');
    BingLinkText(la, ln);
    BingUrlQuery(la, ln);
    BingMaps.CpWins(Providers.BingUrl(la, ln), la + "~" + ln);
  }

  /** The `sp` the Bing link also writes reads back as the same
      coordinate. */
  lemma BingPointReads(c: Coordinates)
    requires Valid(c.lat) && Valid(c.lng)
    ensures BingMaps.SpStep(Single(Some(BingPoint(Show(c.lat), Show(c.lng))))) == Found(c)
  {
    assert "_Pin" == "_" + "Pin";
    assert BingPoint(Show(c.lat), Show(c.lng)) == "point." + Show(c.lat) + "_" + Show(c.lng) + "_" + "Pin";
    BingMaps.SpShown(c.lat, c.lng, "Pin");
  }

  lemma YandexLiterals()
    ensures "https://yandex.com/maps/?pt=" == "https://yandex.com/maps/" + "?" + "pt" + "="
    ensures "https://yandex.com/maps/?ll=" == "https://yandex.com/maps/" + "?" + "ll" + "="
    ensures "&z=" == "&" + "z" + "=" && "&l=" == "&" + "l" + "="
    ensures "&z=16&l=map" == "&z=" + "16" + "&l=" + "map" && "&z=16" == "&z=" + "16"
  {
  }

  /** The query the Yandex link writes. */
  function YandexPairs(la: string, ln: string): seq<(string, string)> {
    [("pt", ln + "," + la), ("z", "16"), ("l", "map")]
  }

  lemma YandexLinkLayout(la: string, ln: string)
    ensures YandexLink(la, ln) == "https://yandex.com/maps/" + "?" + Encode(YandexPairs(la, ln)) + ""
  {
    var p, w := "https://yandex.com/maps/?pt=", ln + "," + la;
    YandexLiterals();
    assert YandexLink(la, ln) == p + w + "&z=" + "16" + "&l=" + "map";
    LayoutThree(p, "&z=", "&l=", "https://yandex.com/maps/", "pt", w, "z", "16", "l", "map");
  }

  /** The Yandex link writes `pt` as `lng,lat`. */
  lemma YandexLinkText(la: string, ln: string)
    requires Printed(la) && Printed(ln)
    ensures Lookup(ParseUrl(YandexLink(la, ln)).query, "pt") == Single(Some(ln + "," + la))
  {
    YandexLinkLayout(la, ln);
    YandexPlain(la, ln);
    LinkLookup("https://yandex.com/maps/", YandexPairs(la, ln), "", "pt");
  }

  lemma YandexPlain(la: string, ln: string)
    requires Printed(la) && Printed(ln)
    ensures PlainPairs(YandexPairs(la, ln))
  {
    PairPlain(ln, ',', la);
    PlainThree("pt", ln + "," + la, "z", "16", "l", "map");
  }

  /** The query the older table's Yandex link writes. */
  function YandexUrlPairs(la: string, ln: string): seq<(string, string)> {
    [("ll", ln + "," + la), ("z", "16")]
  }

  lemma YandexUrlLayout(la: string, ln: string)
    ensures Providers.YandexUrl(la, ln) == "https://yandex.com/maps/" + "?" + Encode(YandexUrlPairs(la, ln)) + ""
  {
    var p, w := "https://yandex.com/maps/?ll=", ln + "," + la;
    YandexLiterals();
    assert Providers.YandexUrl(la, ln) == p + w + "&z=" + "16" + "";
    LayoutTwo(p, "&z=", "https://yandex.com/maps/", "ll", w, "z", "16", "");
  }

  /** The older table's Yandex link writes `ll` as `lng,lat`. */
  lemma YandexUrlText(la: string, ln: string)
    requires Printed(la) && Printed(ln)
    ensures Lookup(ParseUrl(Providers.YandexUrl(la, ln)).query, "ll") == Single(Some(ln + "," + la))
  {
    YandexUrlLayout(la, ln);
    YandexUrlPlain(la, ln);
    LinkLookup("https://yandex.com/maps/", YandexUrlPairs(la, ln), "", "ll");
  }

  lemma YandexUrlPlain(la: string, ln: string)
    requires Printed(la) && Printed(ln)
    ensures PlainPairs(YandexUrlPairs(la, ln))
  {
    PairPlain(ln, ',', la);
    PlainTwo("ll", ln + "," + la, "z", "16");
  }

  lemma GoogleLiterals()
    ensures "https://www.google.com/maps/search/?api=" == "https://www.google.com/maps/search/" + "?" + "api" + "="
    ensures "&query=" == "&" + "query" + "="
  {
  }

  /** The query the Google Maps link writes. */
  function GooglePairs(la: string, ln: string): seq<(string, string)> {
    [("api", "1"), ("query", la + "," + ln)]
  }

  lemma GoogleLinkLayout(la: string, ln: string)
    ensures GoogleLink(la, ln) == "https://www.google.com/maps/search/" + "?" + Encode(GooglePairs(la, ln)) + ""
  {
    var p, w := "https://www.google.com/maps/search/?api=", la + "," + ln;
    GoogleLiterals();
    assert GoogleLink(la, ln) == p + "1" + "&query=" + w + "";
    LayoutTwo(p, "&query=", "https://www.google.com/maps/search/", "api", "1", "query", w, "");
  }

  /** The Google Maps link of both lists writes `query` as `lat,lng`. */
  lemma GoogleLinkText(la: string, ln: string)
    requires Printed(la) && Printed(ln)
    ensures Lookup(ParseUrl(GoogleLink(la, ln)).query, "query") == Single(Some(la + "," + ln))
    ensures Lookup(ParseUrl(Providers.GoogleUrl(la, ln)).query, "query") == Single(Some(la + "," + ln))
  {
    GoogleLinkLayout(la, ln);
    GooglePlain(la, ln);
    LinkLookup("https://www.google.com/maps/search/", GooglePairs(la, ln), "", "query");
  }

  lemma GooglePlain(la: string, ln: string)
    requires Printed(la) && Printed(ln)
    ensures PlainPairs(GooglePairs(la, ln))
  {
    PairPlain(la, ',', ln);
    PlainTwo("api", "1", "query", la + "," + ln);
  }

  /** The `map` value of the older table's Here link. */
  function HereValue(la: string, ln: string): string {
    la + "," + ln + ",16,normal"
  }

  lemma HereUrlLayout(la: string, ln: string)
    ensures Providers.HereUrl(la, ln) == "https://wego.here.com/" + "?" + Encode([("map", HereValue(la, ln))]) + ""
  {
    var p := "https://wego.here.com/?map=";
    assert p == "https://wego.here.com/" + "?" + "map" + "=";
    assert Providers.HereUrl(la, ln) == p + HereValue(la, ln);
    LayoutOne(p, "https://wego.here.com/", "map", HereValue(la, ln));
  }

  /** The older table's Here link writes `map` as `lat,lng,16,normal`. */
  lemma HereUrlText(la: string, ln: string)
    requires Printed(la) && Printed(ln)
    ensures Lookup(ParseUrl(Providers.HereUrl(la, ln)).query, "map") == Single(Some(la + "," + ln + ",16,normal"))
  {
    HereUrlLayout(la, ln);
    PairPlain(la, ',', ln);
    PlainJoin(la + "," + ln, ",16,normal");
    assert PlainPairs([("map", HereValue(la, ln))]);
    LinkLookup("https://wego.here.com/", [("map", HereValue(la, ln))], "", "map");
  }

  /** The Here link of `getProviderLinks` writes `lat,lng` after its
      `/search/`, its only one. */
  lemma HereLinkText(la: string, ln: string)
    ensures var s := HereLink(la, ln);
      OccursAt(s, "/search/", 21) && s[29..] == la + "," + ln
  {
    var h := "https://wego.here.com/search/";
    assert HereLink(la, ln) == h + (la + "," + ln);
    assert h[21..] == "/search/";
  }

  /** The Earth link of `getProviderLinks` writes `lat,lng` after its
      `/search/`, and the Google Earth parser reads lat from the first
      number and lng from the second, provided the separator run does not
      eat into lng (`Patterns.KeepsLng`): a `2` followed by another digit is
      swallowed, see `Patterns.SearchSwallowsTwo`. */
  lemma EarthLinkReads(la: string, ln: string)
    requires Patterns.IsDecimal(la) && Patterns.IsDecimal(ln) && Patterns.KeepsLng(ln)
    ensures var s := EarthLink(la, ln);
      OccursAt(s, "/search/", 28) && s[36..] == la + "," + ln
    ensures var r := GoogleEarth.Parse(EarthLink(la, ln));
      r.Some? && ParseFloat(la) == Some(r.value.lat) && ParseFloat(ln) == Some(r.value.lng)
  {
    EarthLinkParts(la, ln);
    EarthLinkNoAt(la, ln);
    EarthLinkSearch(la, ln);
    EarthReadsFrom(EarthLink(la, ln), la, ln);
  }

  /** A link with no `@` whose first `/search/` match, at 28, captures la
      and the rest of the text, ln, is read back as la and ln. */
  lemma EarthReadsFrom(s: string, la: string, ln: string)
    requires var f := 36 + |la|;
      |s| == f + 1 + |ln| && s[36..f] == la && s[f + 1..] == ln
    requires Patterns.AtPair(s).None?
    requires Patterns.Search(s) == Some((28, (Patterns.Span(36, 36 + |la|), Patterns.Span(37 + |la|, |s|))))
    ensures var r := GoogleEarth.Parse(s);
      r.Some? && ParseFloat(la) == Some(r.value.lat) && ParseFloat(ln) == Some(r.value.lng)
  {
    GoogleEarth.SearchReads(s, Patterns.Span(36, 36 + |la|), Patterns.Span(37 + |la|, |s|), la, ln);
  }

  /** The first `/search/` match of an Earth link is at 28 and captures
      la and ln. */
  lemma EarthLinkSearch(la: string, ln: string)
    requires Patterns.IsDecimal(la) && Patterns.IsDecimal(ln) && Patterns.KeepsLng(ln)
    ensures Patterns.Search(EarthLink(la, ln))
      == Some((28, (Patterns.Span(36, 36 + |la|), Patterns.Span(37 + |la|, 37 + |la| + |ln|))))
  {
    EarthLinkParts(la, ln);
    EarthSearchFirst(EarthLink(la, ln));
    EarthSearchGroups(EarthLink(la, ln), la, ln);
    Patterns.SearchFirstAt(EarthLink(la, ln), 28,
      (Patterns.Span(36, 36 + |la|), Patterns.Span(37 + |la|, 37 + |la| + |ln|)));
  }

  /** Where the parts of an Earth link stand. */
  lemma EarthLinkParts(la: string, ln: string)
    ensures var s, f := EarthLink(la, ln), 36 + |la|;
      |s| == f + 1 + |ln| && s[..36] == "https://earth.google.com/web/search/"
      && OccursAt(s, "/search/", 28) && s[36..f] == la && s[f] == ',' && s[f + 1..f + 1 + |ln|] == ln
      && s[f + 1..] == ln && s[36..] == la + "," + ln
  {
    var h := "https://earth.google.com/web/search/";
    assert EarthLink(la, ln) == h + la + "," + ln;
    assert h[28..] == "/search/";
  }

  /** The `/search/` pattern captures la and ln after the marker at 28. */
  lemma EarthSearchGroups(s: string, la: string, ln: string)
    requires Patterns.IsDecimal(la) && Patterns.IsDecimal(ln) && Patterns.KeepsLng(ln)
    requires var f := 36 + |la|;
      |s| == f + 1 + |ln| && OccursAt(s, "/search/", 28)
      && s[36..f] == la && s[f] == ',' && s[f + 1..f + 1 + |ln|] == ln
    ensures Patterns.SearchAt(s, 28) == Some((Patterns.Span(36, 36 + |la|), Patterns.Span(37 + |la|, 37 + |la| + |ln|)))
  {
    var f := 36 + |la|;
    Patterns.DecimalSliceIn(s, 36, la);
    Patterns.DecimalSliceIn(s, f + 1, ln);
    Patterns.KeepsAt(s, f + 1, ln);
    Patterns.SearchOfGroups(s, 28, f, Patterns.Span(f + 1, f + 1 + |ln|));
  }

  /** No `/search/` starts before index 28 of an Earth link. */
  lemma EarthSearchFirst(s: string)
    requires 36 <= |s| && s[..36] == "https://earth.google.com/web/search/"
    ensures forall p: nat :: p < 28 ==> Patterns.SearchAt(s, p).None?
  {
    EarthPrefixText();
    PrefixMismatch(s, "https://earth.google.com/web/search/", "/search/", 28);
  }

  /** Every `/` in the first 28 characters of the Earth prefix is followed
      by something other than `s`. */
  lemma EarthPrefixText()
    ensures var h := "https://earth.google.com/web/search/";
      forall p :: 0 <= p < 28 ==> h[p] != '/' || h[p + 1] != 's'
  {
  }

  /** A pattern cannot start at any p < n of a text that opens with h when
      h never holds the pattern's first two characters at p and p + 1. */
  lemma PrefixMismatch(s: string, h: string, pat: string, n: nat)
    requires 2 <= |pat| && n + 1 <= |h| <= |s| && s[..|h|] == h
    requires forall p :: 0 <= p < n ==> h[p] != pat[0] || h[p + 1] != pat[1]
    ensures forall p: nat :: p < n ==> !OccursAt(s, pat, p)
  {
    forall p: nat | p < n
      ensures !OccursAt(s, pat, p)
    {
      assert s[p] == h[p] && s[p + 1] == h[p + 1];
      if h[p] != pat[0] {
        MismatchAt(s, pat, p, 0);
      } else {
        MismatchAt(s, pat, p, 1);
      }
    }
  }

  /** An Earth link holds no `@`. */
  lemma EarthLinkNoAt(la: string, ln: string)
    requires Patterns.IsDecimal(la) && Patterns.IsDecimal(ln)
    ensures Patterns.AtPair(EarthLink(la, ln)).None?
  {
    var s := EarthLink(la, ln);
    Patterns.DecimalChars(la);
    Patterns.DecimalChars(ln);
    assert '@' !in la && '@' !in ln;
    assert '@' !in "https://earth.google.com/web/search/";
    assert s == "https://earth.google.com/web/search/" + la + "," + ln;
    assert '@' !in s;
    forall p: nat
      ensures Patterns.AtPairAt(s, p).None?
    {
      if p < |s| {
        assert s[p] in s;
      }
    }
  }

  /** The table's Earth link writes `@lat,lng,`, and the Google Earth
      parser reads lat from the first number and lng from the second. */
  lemma EarthUrlReads(la: string, ln: string)
    requires Patterns.IsDecimal(la) && Patterns.IsDecimal(ln)
    ensures var s := Providers.EarthUrl(la, ln);
      s[29] == '@' && s[30..30 + |la|] == la && s[30 + |la|] == ','
    ensures var r := GoogleEarth.Parse(Providers.EarthUrl(la, ln));
      r.Some? && ParseFloat(la) == Some(r.value.lat) && ParseFloat(ln) == Some(r.value.lng)
  {
    EarthUrlParts(la, ln);
    EarthUrlNoAtBefore(Providers.EarthUrl(la, ln));
    EarthUrlAt(Providers.EarthUrl(la, ln), la, ln);
    var x, y := Patterns.Span(30, 30 + |la|), Patterns.Span(31 + |la|, 31 + |la| + |ln|);
    Patterns.AtPairFirstAt(Providers.EarthUrl(la, ln), 29, (x, y));
    GoogleEarth.AtReads(Providers.EarthUrl(la, ln), x, y, la, ln);
  }

  /** Where the parts of the table's Earth link stand. */
  lemma EarthUrlParts(la: string, ln: string)
    ensures var s, f := Providers.EarthUrl(la, ln), 30 + |la|;
      |s| == f + 1 + |ln| + 18 && s[..30] == "https://earth.google.com/web/@"
      && s[30..f] == la && s[f] == ',' && s[f + 1..f + 1 + |ln|] == ln && s[f + 1 + |ln|] == ','
  {
    var h, t := "https://earth.google.com/web/@", ",100a,35y,0h,0t,0r";
    assert Providers.EarthUrl(la, ln) == h + la + "," + ln + t;
  }

  /** The pattern captures la and ln at an `@` at 29 followed by
      `la,ln,`. */
  lemma EarthUrlAt(s: string, la: string, ln: string)
    requires Patterns.IsDecimal(la) && Patterns.IsDecimal(ln)
    requires var f := 30 + |la|;
      f + 2 + |ln| <= |s| && s[29] == '@'
      && s[30..f] == la && s[f] == ',' && s[f + 1..f + 1 + |ln|] == ln && s[f + 1 + |ln|] == ','
    ensures Patterns.AtPairAt(s, 29) == Some((Patterns.Span(30, 30 + |la|), Patterns.Span(31 + |la|, 31 + |la| + |ln|)))
  {
    var f := 30 + |la|;
    Patterns.DecimalSliceIn(s, 30, la);
    Patterns.DecimalSliceIn(s, f + 1, ln);
  }

  /** The table's Earth link has its first `@` at 29. */
  lemma EarthUrlNoAtBefore(s: string)
    requires 30 <= |s| && s[..30] == "https://earth.google.com/web/@"
    ensures s[29] == '@' && forall p: nat :: p < 29 ==> Patterns.AtPairAt(s, p).None?
  {
    var h := "https://earth.google.com/web/@";
    assert s[29] == h[29];
    forall p: nat | p < 29
      ensures s[p] != '@'
    {
      assert s[p] == h[p];
    }
  }

  /** A coordinate printed as two decimals reads back from the table's
      Earth link. */
  lemma EarthUrlRoundTrip(c: Coordinates)
    requires IsDecimalNum(c.lat) && IsDecimalNum(c.lng)
    ensures GoogleEarth.Parse(Providers.EarthUrl(Show(c.lat), Show(c.lng))) == Some(c)
  {
    Patterns.ShowIsDecimal(c.lat);
    Patterns.ShowIsDecimal(c.lng);
    EarthUrlReads(Show(c.lat), Show(c.lng));
    ParseShowExact(c.lat);
    ParseShowExact(c.lng);
  }

  /** A coordinate printed as two decimals reads back from the Earth link
      of `getProviderLinks`, unless its lng is positive with two or more
      whole digits of which the first is 2. */
  lemma EarthLinkRoundTrip(c: Coordinates)
    requires IsDecimalNum(c.lat) && IsDecimalNum(c.lng)
    requires c.lng.negative || c.lng.whole[0] != '2' || |c.lng.whole| == 1
    ensures GoogleEarth.Parse(EarthLink(Show(c.lat), Show(c.lng))) == Some(c)
  {
    Patterns.ShowIsDecimal(c.lat);
    Patterns.ShowIsDecimal(c.lng);
    ShowDecimal(c.lng, "");
    assert Show(c.lng) + "" == Show(c.lng);
    assert Show(c.lng)[0] == if c.lng.negative then '-' else c.lng.whole[0];
    assert !c.lng.negative && |c.lng.whole| == 1 ==> Show(c.lng)[1] == '.';
    EarthLinkReads(Show(c.lat), Show(c.lng));
    ParseShowExact(c.lat);
    ParseShowExact(c.lng);
  }

  /** Unlike every other provider (see `AppleLinkText`, `GoogleLinkText`,
      `EarthLinkReads`, `HereUrlText` and the rest), Yandex is written lng
      first: a reader that splits its pair as `lat,lng`, as the Waze
      decoder does with `ll`, gets the two numbers swapped. */
  lemma YandexSwapped(c: Coordinates)
    requires Valid(c.lat) && Valid(c.lng)
    ensures SplitValue(Lookup(ParseUrl(YandexLink(Show(c.lat), Show(c.lng))).query, "pt"), ',')
      == Found(Coordinates(c.lng, c.lat))
    ensures Waze.Parse(Providers.YandexUrl(Show(c.lat), Show(c.lng))) == Some(Coordinates(c.lng, c.lat))
  {
    var la, ln := Show(c.lat), Show(c.lng);
    ShowPrinted(c.lat);
    ShowPrinted(c.lng);
    SplitPairShown(c.lng, c.lat, ',');
    YandexLinkText(la, ln);
    SplitValueSingle(ln + "," + la, ',');
    YandexUrlText(la, ln);
    Waze.LlDecides(Providers.YandexUrl(la, ln), ln + "," + la);
  }

  /** The provider table lists the same eight providers as
      `getProviderLinks`, in the same order and with the same colours. */
  lemma TableInOrder(c: Coordinates)
    ensures |Providers.Table| == |ProviderLinks(Some(c))|
    ensures forall i :: 0 <= i < |Providers.Table| ==>
      Providers.Table[i].name == ProviderLinks(Some(c))[i].name
      && Providers.Table[i].color == ProviderLinks(Some(c))[i].color
  {
  }
}
