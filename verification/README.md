# map-bridge: coordinate extraction, verified

map-bridge takes whatever a user pastes (a bare `lat, lng` pair, a link from
Google Maps, Apple Maps, Bing Maps, Waze, Google Earth or OpenStreetMap, or a
`geo:` URI) and extracts a coordinate. It labels where the text came from and
writes the same point back out as links for eight map services. A server
action expands short links: it follows the redirect and, when the final URL
carries no coordinate, reads the page's `og:image` static-map URL.

This project models that core in Dafny and proves what it does:

- `Numbers`: a number is the decimal token that was matched (`Num`: sign,
  whole digits, fraction digits, optional exponent, or `Infinity`).
  `ParseFloat` is JavaScript's `parseFloat` over that grammar. `Show` prints a
  token the way the links do, and `ParseShow` proves that reading back gives the same token.
- `Strings`, `QueryString`: trimming with ECMAScript white space, lower-casing,
  `split`, `indexOf`, and a query-string splitter that stands in for the
  `query-string` package.
- `Patterns`: each regular expression of the core as a scanner with
  leftmost, greedy and backtracking semantics. Captures are index spans of the scanned text.
- `Decoders`, `Types`: the shared decoding steps (`split(d).map(parseFloat)`,
  the NaN checks, the `try/catch` around each step) and the
  `Coordinates`/`Provider` records.
- One module per parser (`GoogleMaps`, `AppleMaps`, `BingMaps`, `Waze`,
  `GoogleEarth`, `OpenStreetMap`, `GeoUri`), the ordered registry
  (`Parsers`), extraction, labelling and link generation (`GeoUtils`), and the
  static provider table (`Providers`).
- `RoundTrips`: every generated link writes lat before lng, except the two
  Yandex links, which write lng first. The Apple, Waze, OpenStreetMap and Bing
  links are read back by their parser to the coordinate they were written
  from. Both Google Earth links are read back too, but only for coordinates
  printed as `-?\d+\.\d+` (whole digits, a point, fraction digits, no
  exponent), because both Earth patterns need a decimal point
  (`GoogleEarth.NeedsPoint`, `GoogleEarth.IntegersIgnored`). The
  `getProviderLinks` Earth link also needs lng not to be positive with two or
  more whole digits starting with `2`: the separator run after the comma
  swallows such a `2` (`Patterns.SearchSwallowsTwo`), while a lone `2.x`
  reads back.
- `Actions`: `expandUrl` as a method. The two network results (the URL after
  redirects, and the page body) are its inputs. It returns the result together with the log of requests it would issue.

Every `parse` returns `Option<Coordinates>`, so "never throws" holds by
construction. The internal `Step` type (`Found`, `Next`, `Threw`) keeps apart
the places where the JavaScript would throw and be caught (`.split` on an
array value, the free-text parser failing) and those where it only moves on
to the next decoder.

Two facts about the code shape the model:

- Extraction (src/lib/geo-utils.ts:6-56) never calls the link expander. The
  expander (src/app/actions.ts:7-83) has no short-link host test: it expands
  any non-empty URL it is given. The user interface decides which links to
  expand (src/app/GeoLocationFinder.tsx:160) and falls back to the original
  text when expansion fails (src/app/GeoLocationFinder.tsx:140-151). The user
  interface is not part of this model.
- The emptiness test comes before trimming (src/lib/geo-utils.ts:8-12). A
  text of spaces therefore gives the "Could not extract coordinates" error,
  not the empty state (`GeoUtils.SpacesOnly`).

## Model

| member | source | states |
|---|---|---|
| GeoUtils.EmptyInput | src/lib/geo-utils.ts:8-10 | empty input yields no coordinate and an empty error, whatever the free-text parser; `detectSource("")` is `''` |
| GeoUtils.SpacesOnly | src/lib/geo-utils.ts:8-12 | a non-empty all-white-space input is not the empty state: it yields no coordinate and the NotFound message |
| GeoUtils.RawFirst | src/lib/geo-utils.ts:14-24 | when the trimmed text is a bare `dec,\s*dec` pair, the result's lat and lng are `parseFloat` of the two captured groups, and no parser (not even the free-text one) affects the result |
| GeoUtils.RegistryDecides | src/lib/geo-utils.ts:26-34 | if parser i accepts and decodes and every earlier parser either rejects or returns null, the result is parser i's coordinate with an empty error |
| GeoUtils.FallbackOnlyAfterParsers | src/lib/geo-utils.ts:36-47 | a parser's coordinate always beats the generic `@lat,lng` scan; only when no parser decodes does the result succeed exactly when that scan matches |
| GeoUtils.ErrorIff | src/lib/geo-utils.ts:49-55 | the error is empty exactly when the input is empty or a coordinate was found; any other error is the NotFound message; "Invalid URL format." is never produced |
| GeoUtils.RawLabel | src/lib/geo-utils.ts:58-63 | the label is "Raw Coordinates" exactly when the trimmed non-empty text is a bare pair, and then extraction succeeds |
| GeoUtils.ParserLabel | src/lib/geo-utils.ts:64-69 | the label is parser p's name exactly when the text is not a bare pair and p is the first registry parser whose `canParse` accepts |
| GeoUtils.GoogleLabel | src/lib/geo-utils.ts:64-69 | a non-raw text accepted by the Google Maps parser is labelled "Google Maps", whatever other parser also accepts it |
| GeoUtils.UnknownLabel | src/lib/geo-utils.ts:71-76 | with no accepting parser the label is "Unknown Source" if the untrimmed text is a URL, else `''` |
| GeoUtils.LabelsDistinct | src/lib/geo-utils.ts:58-77 | no parser name coincides with "Raw Coordinates", "Unknown Source" or `''`, so the label tells the cases apart |
| GeoUtils.LinksNone | src/lib/geo-utils.ts:80 | `getProviderLinks` is empty exactly when it is given no coordinate |
| GeoUtils.LinksInOrder | src/lib/geo-utils.ts:82-123 | for a coordinate the names are exactly Apple Maps, Google Earth, Google Maps, Waze, OpenStreetMap, Bing Maps, Yandex Maps, Here WeGo, in that order |
| Parsers.RegistryDistinct | src/lib/parsers/index.ts:11-19 | the registry has seven entries, no parser twice, and pairwise distinct names |
| Parsers.Position | src/lib/parsers/index.ts:11-19 | every parser has a position in the registry |
| Parsers.GoogleFirst | src/lib/parsers/index.ts:12 | a text Google Maps accepts is offered to Google Maps first, at position 0 |
| Parsers.GeoLast | src/lib/parsers/index.ts:18 | a text that any other parser accepts never reaches the Geo URI parser first |
| Parsers.FirstAccepting | src/lib/geo-utils.ts:65-69 | the first index whose `canParse` holds, with every earlier parser rejecting; None exactly when no parser accepts |
| Parsers.Attempt | src/lib/geo-utils.ts:28-30 | one loop step succeeds exactly when the parser accepts and its `parse` is non-null, and then yields that coordinate |
| Parsers.Walk | src/lib/geo-utils.ts:27-34 | the first registry parser whose attempt succeeds, with every earlier attempt null (accepting and returning null moves on); None exactly when every attempt is null |
| Parsers.FirstDecodedAt | src/lib/geo-utils.ts:27-34 | if attempt i succeeds and all earlier attempts are null, the walk returns i and its coordinate |
| Parsers.NullPassesOn | src/lib/geo-utils.ts:29-30 | a null attempt at the head leaves the walk's result to the rest of the list, with positions shifted by one |
| GoogleMaps.CanParseIff | src/lib/parsers/google-maps.ts:9-12 | accepts exactly when the lower-cased text contains `google.com/maps` or `goo.gl` (the `maps.app.goo.gl` test is subsumed) |
| GoogleMaps.SearchWins | src/lib/parsers/google-maps.ts:16-23 | a `/search/` match decides the result before every other decoder: lat and lng are `parseFloat` of its two groups |
| Patterns.SearchSwallowsTwo | src/lib/parsers/google-maps.ts:17 | the separator class contains the digit `2`, so on `/search/12.5,23.7` the greedy separator swallows the `2` and the groups are `12.5` and `3.7` |
| GoogleMaps.CenterWins | src/lib/parsers/google-maps.ts:25-31 | without `/search/`, a single `center` value whose comma halves both parse is the result |
| GoogleMaps.CenterArrayFails | src/lib/parsers/google-maps.ts:26-31 | a repeated `center` key (an array value, whose `.split` throws) makes the whole parse null |
| GoogleMaps.StrictNeedsPair | src/lib/parsers/google-maps.ts:33-37 | the strict `q` step passes on unless the whole value matches `dec,\s*dec` |
| GoogleMaps.StrictSplit | src/lib/parsers/google-maps.ts:37-39 | for a value matching the strict pattern, splitting at `,` and `parseFloat` give exactly the two captured decimals |
| GoogleMaps.StrictWins | src/lib/parsers/google-maps.ts:33-41 | with no `/search/` and no decodable `center`, a strict `q` value is the result, read as its two captured decimals |
| GoogleMaps.AtWins | src/lib/parsers/google-maps.ts:43-50 | when the search path, `center` and strict `q` steps pass on and an `@dec,dec` match exists, the leftmost match is one the pattern allows and its groups, read by `parseFloat`, are the lat and lng returned |
| GoogleMaps.BangNeedsBoth | src/lib/parsers/google-maps.ts:52-60 | the `!3d`/`!4d` step succeeds exactly when both markers occur with a decimal after them, reading the first occurrence of each |
| GoogleMaps.BangEitherOrder | src/lib/parsers/google-maps.ts:53-55 | `!4d` before `!3d` still gives lat from `!3d` and lng from `!4d` |
| GoogleMaps.BangDecides | src/lib/parsers/google-maps.ts:52-60 | once the `/search/`, `center`, strict `q` and `@` steps pass on, a `!3d`/`!4d` pair found by step 5 is the result, ahead of the free-text `q` |
| GoogleMaps.BangWins | src/lib/parsers/google-maps.ts:52-60 | with steps 1-4 passing on and both markers present, the parse succeeds with lat and lng `parseFloat` of the first `!3d` and first `!4d` captures, whatever the free-text parser says |
| GoogleMaps.FreeDecides | src/lib/parsers/google-maps.ts:62-76 | once steps 1-5 pass on, the result is the free-text parser's reading of a truthy `q` (a coordinate or null), and null for a missing, valueless or empty `q` |
| GoogleMaps.FreeSwallowed | src/lib/parsers/google-maps.ts:62-76 | when every earlier decoder passes on and the free-text parser fails or throws on `q`, the result is null |
| AppleMaps.CanParseIff | src/lib/parsers/apple-maps.ts:9-12 | accepts exactly when the lower-cased text contains `maps.apple` |
| AppleMaps.LlWins | src/lib/parsers/apple-maps.ts:19-23 | an `ll` whose comma halves both parse is the result |
| AppleMaps.LlFallsThrough | src/lib/parsers/apple-maps.ts:19-37 | an `ll` that is not two numbers does not fail: the result is the `q` decoder's |
| AppleMaps.NeitherGivesNull | src/lib/parsers/apple-maps.ts:19-39 | if `ll` passes on and `q` is absent, empty, or the free-text parser fails on it, the result is null |
| AppleMaps.LlArrayFails | src/lib/parsers/apple-maps.ts:15-42 | a repeated `ll` key throws inside the `try` and gives null |
| BingMaps.CpWins | src/lib/parsers/bing-maps.ts:16-21 | a `cp` whose `~` halves both parse is the result, lat first, and it beats `sp` |
| BingMaps.SpReads | src/lib/parsers/bing-maps.ts:24-33 | for `sp = a_b…`, lat is `parseFloat` of `a` with its first `point.` removed, and lng is `parseFloat` of the text of `b` up to the next `_` |
| BingMaps.SpNeedsTwo | src/lib/parsers/bing-maps.ts:27-28 | an `sp` without `_` passes on |
| BingMaps.SpShown | src/lib/parsers/bing-maps.ts:24-33 | `point.<lat>_<lng>_<name>` decodes to exactly those printed tokens |
| BingMaps.NothingGivesNull | src/lib/parsers/bing-maps.ts:16-36 | when neither `cp` nor `sp` decodes (each missing, empty, valueless or not two numbers), the result is null |
| Waze.LlDecides | src/lib/parsers/waze.ts:16-21 | the result is exactly the comma split of the single `ll` value |
| Waze.NoCommaGivesNull | src/lib/parsers/waze.ts:19-20 | an `ll` without a comma has a NaN lng and gives null |
| Waze.OnlyLl | src/lib/parsers/waze.ts:14-23 | without a single-valued `ll` the result is null |
| GoogleEarth.AtWins | src/lib/parsers/google-earth.ts:13-20 | the first `@dec,dec` match wins, with lat and lng `parseFloat` of its groups |
| GoogleEarth.SearchSecond | src/lib/parsers/google-earth.ts:22-29 | without an `@` match, the result is the `/search/` decoder's, with the separator class shared with Google Maps |
| GoogleEarth.NeedsPoint | src/lib/parsers/google-earth.ts:13-31 | a text without a `.` gives null: both patterns need a literal decimal point |
| GoogleEarth.SearchGroups | src/lib/parsers/google-earth.ts:22-29 | without an `@` match, a `/search/` match makes the parse succeed with lat and lng `parseFloat` of its two groups |
| GoogleEarth.SearchFirst | src/lib/parsers/google-earth.ts:22-29 | without an `@` match, a `/search/` match at p with none earlier is the one read |
| GoogleEarth.SearchReads | src/lib/parsers/google-earth.ts:22-29 | without an `@` match, the texts la and ln at the first `/search/` match's groups are read as lat and lng |
| GoogleEarth.AtReads | src/lib/parsers/google-earth.ts:13-20 | the texts la and ln at the first `@` match's groups are read as lat and lng |
| GoogleEarth.IntegersIgnored | src/lib/parsers/google-earth.ts:14-23 | `@40,-74` and `/search/40,-74` both give null |
| OpenStreetMap.MarksWin | src/lib/parsers/open-street-map.ts:16-21 | non-empty `mlat` and `mlon` give `parseFloat` of each, and take precedence over the fragment |
| OpenStreetMap.HashUnreachable | src/lib/parsers/open-street-map.ts:23-32 | the splitter's `url` field holds no `#`, so the fragment step always passes on and the result is the `mlat`/`mlon` step's |
| OpenStreetMap.FragmentReads | src/lib/parsers/open-street-map.ts:25-31 | taken on its own, the fragment step reads `map=<z>/<lat>/<lng>` back to those tokens and ignores the zoom |
| OpenStreetMap.NaNGivesNull | src/lib/parsers/open-street-map.ts:17-20 | a NaN `mlat` or `mlon` gives null |
| GeoUri.StripIff | src/lib/parsers/geo-uri.ts:15 | the `geo:` prefix is removed, in any letter case, exactly when `canParse` holds; otherwise the text is unchanged |
| GeoUri.QueryIgnored | src/lib/parsers/geo-uri.ts:16 | everything from the first `?` onward does not change the result |
| GeoUri.Components | src/lib/parsers/geo-uri.ts:17-20 | lat is read from the text before the first `,` and lng from the text between the first and second `,` (a third component is ignored) |
| GeoUri.NaNGivesNull | src/lib/parsers/geo-uri.ts:22-27 | if either component is NaN the result is null |
| GeoUri.PrintedPair | src/lib/parsers/geo-uri.ts:11-24 | `geo:<lat>,<lng>` followed by nothing, `,alt`, `;params` or `?query` decodes to exactly those tokens |
| Decoders.SplitPairCons | src/lib/parsers/google-maps.ts:29 | `split(d).map(parseFloat)` on `a d b` reads lat from `a` and lng from `b` up to its next `d`, and is null if either is NaN |
| Decoders.SplitPairAbsent | src/lib/parsers/waze.ts:19-20 | without the delimiter the second piece is undefined, so the pair is null |
| Decoders.SplitPairShown | src/lib/parsers/apple-maps.ts:21 | two printed tokens joined by a non-number delimiter split back to exactly those tokens |
| Decoders.SplitValueOther | src/lib/parsers/google-maps.ts:26-31 | an array value throws and a missing or empty value passes on |
| Decoders.FreeValue | src/lib/parsers/google-maps.ts:62-74 | the free-text step never escapes as a throw: a failure is swallowed into passing on |
| Numbers.ParseFloat | src/lib/parsers/geo-uri.ts:19-20 | `parseFloat` yields a valid token, and NaN exactly when the text after leading white space does not begin a number |
| Numbers.ParseSkipsSpace | src/lib/parsers/geo-uri.ts:19-20 | leading white space does not change what `parseFloat` reads |
| Numbers.ParseShow | src/lib/geo-utils.ts:85 | a printed token followed by any delimiter that cannot continue a number is read back as that token |
| Numbers.ParseShowExact | src/lib/geo-utils.ts:85 | a printed token on its own is read back as that token |
| Patterns.RawPairIff | src/lib/geo-utils.ts:15 | the bare-pair scanner returns spans x, y exactly when the whole text is `dec`, `,`, white space, `dec` at those spans |
| Patterns.CaptureValue | src/lib/geo-utils.ts:19-20 | `parseFloat` of a captured decimal is the token built from the capture |
| Patterns.DecimalNeedsPoint | src/lib/geo-utils.ts:15 | a decimal capture implies the text contains a `.` |
| Patterns.AtPairAtIff | src/lib/parsers/google-maps.ts:44 | the `@dec,dec` scanner at p returns x, y exactly when `@` is at p, decimals sit at x and y around a `,`, and y is maximal |
| Patterns.MarkerFirst | src/lib/parsers/google-maps.ts:53-54 | a marker match at p with none earlier is the one `match` returns |
| Patterns.SearchAtSound | src/lib/parsers/google-maps.ts:17 | a `/search/` scan result is a real match with a greedy second group |
| Patterns.SearchAtFirst | src/lib/parsers/google-maps.ts:17 | whenever a `/search/` match exists at p the scanner returns one there (the backtracking choice) |
| Patterns.SearchOfGroups | src/lib/parsers/google-maps.ts:17 | `/search/`, a greedy decimal, a single `,` and a decimal that starts outside the separator class or with a lone `2.` is a match with exactly those two groups |
| Patterns.SearchFirstAt | src/lib/parsers/google-maps.ts:17 | a `/search/` match at p with none earlier is the one `match` returns |
| Patterns.AtPairFirstAt | src/lib/parsers/google-earth.ts:14 | an `@dec,dec` match at p with none earlier is the one `match` returns |
| Patterns.ShowIsDecimal | src/lib/geo-utils.ts:90 | a printed number with a fraction is a `-?\d+\.\d+` token |
| Patterns.DecimalSlice | src/app/actions.ts:63-64 | a greedy decimal capture's text is itself a decimal |
| QueryString.ParseUrl | src/lib/parsers/open-street-map.ts:24 | the splitter's `url` field contains neither `#` nor `?` |
| QueryString.ParseUrlEncoded | src/lib/parsers/apple-maps.ts:16 | `base?k1=v1&…` with plain keys and values splits back into that base and those pairs |
| QueryString.LinkLookup | src/lib/parsers/apple-maps.ts:16-20 | looking a key up in such a link gives its value when the key was written, and nothing otherwise |
| QueryString.DecodeComma | src/lib/parsers/google-maps.ts:26 | percent-decoding turns `%2C` into `,` |
| Strings.TrimEmptyIff | src/lib/geo-utils.ts:12 | trimming yields the empty text exactly when the text is all white space |
| Strings.JoinSplit | src/lib/parsers/geo-uri.ts:17 | splitting at a character and joining back gives the original text |
| Strings.SplitCons | src/lib/parsers/geo-uri.ts:17 | `a d b` with no `d` in `a` splits into `a` followed by the pieces of `b` |
| RoundTrips.AppleLinkText | src/lib/geo-utils.ts:85 | the generated Apple link is accepted, and its parse is the comma split of the `ll` it wrote |
| RoundTrips.AppleUrlText | src/lib/providers.ts:5 | the same for the provider table's Apple URL |
| RoundTrips.AppleReads | src/lib/geo-utils.ts:83-87 | both Apple links of a coordinate parse back to that coordinate |
| RoundTrips.WazeLinkText | src/lib/geo-utils.ts:100 | the generated Waze link is accepted, and its parse is the comma split of its `ll` |
| RoundTrips.WazeReads | src/lib/geo-utils.ts:98-102 | both Waze links of a coordinate parse back to that coordinate |
| RoundTrips.TableShared | src/lib/providers.ts:14-31 | the table's Google, Waze and OpenStreetMap URLs are the same text as the generated links |
| RoundTrips.OsmLinkText | src/lib/geo-utils.ts:105 | the generated OpenStreetMap link is accepted and its parse is `parseFloat` of `mlat` and `mlon` |
| RoundTrips.OsmReads | src/lib/geo-utils.ts:103-107 | both OpenStreetMap links of a coordinate parse back to it, including the `#map=16/lat/lng` table form |
| RoundTrips.BingLinkQuery | src/lib/geo-utils.ts:110 | the generated Bing link is accepted and carries `cp=lat~lng` and `sp=point.lat_lng_Pin` |
| RoundTrips.BingLinkText | src/lib/geo-utils.ts:110 | its parse is the `~` split of `cp`, or otherwise the `sp` decoder's |
| RoundTrips.BingReads | src/lib/geo-utils.ts:108-112 | both Bing links (generated, and the table's `cp=lat~lng&lvl=16`) parse back to the coordinate |
| RoundTrips.BingUrlQuery | src/lib/providers.ts:35 | the table's Bing URL carries `cp=lat~lng` and no `sp` |
| RoundTrips.BingPointReads | src/lib/geo-utils.ts:110 | the generated `sp` value alone also decodes to the coordinate |
| RoundTrips.GoogleLinkText | src/lib/geo-utils.ts:95 | the generated Google Maps link, and the table's one (src/lib/providers.ts:17), carry `query=lat,lng`, lat first |
| RoundTrips.HereUrlText | src/lib/providers.ts:47 | the table's Here link carries `map=lat,lng,16,normal`, lat first |
| RoundTrips.HereLinkText | src/lib/geo-utils.ts:120 | the generated Here link holds `/search/` followed by exactly `lat,lng` |
| RoundTrips.EarthLinkReads | src/lib/geo-utils.ts:90 | the generated Earth link holds `/search/` followed by exactly `lat,lng`; for decimal tokens whose lng the separator run leaves whole (it starts outside the separator class, or with a lone `2.`) the Google Earth parser reads lat and lng back from them |
| RoundTrips.EarthLinkSearch | src/lib/geo-utils.ts:90 | the first `/search/` match of that link is at its marker and captures lat and then lng |
| RoundTrips.EarthLinkNoAt | src/lib/geo-utils.ts:90 | that link holds no `@`, so the `@` decoder passes on |
| RoundTrips.EarthLinkRoundTrip | src/lib/geo-utils.ts:88-92 | a coordinate printed as two decimals reads back from that link, unless lng is positive with two or more whole digits of which the first is `2` |
| RoundTrips.EarthUrlReads | src/lib/providers.ts:11 | the table's Earth link writes `@lat,lng,` and the Google Earth parser reads lat and lng back from it for any decimal tokens |
| RoundTrips.EarthUrlRoundTrip | src/lib/providers.ts:11 | a coordinate printed as two decimals reads back from the table's Earth link |
| RoundTrips.YandexLinkText | src/lib/geo-utils.ts:115 | the generated Yandex link carries `pt=lng,lat` |
| RoundTrips.YandexUrlText | src/lib/providers.ts:41 | the table's Yandex URL carries `ll=lng,lat` |
| RoundTrips.YandexSwapped | src/lib/providers.ts:41 | read with the usual lat-first decoder, both Yandex forms give the coordinate with lat and lng swapped |
| RoundTrips.TableInOrder | src/lib/providers.ts:1-50 | the table has as many rows as the generated links, with the same names and colours in the same order |
| Actions.Target | src/app/actions.ts:14-16 | a URL not starting with `http` gets `https://` in front; any other URL is kept |
| Actions.LoosePairIff | src/app/actions.ts:30 | the `[-\d.]+,[-\d.]+` scanner ends at k exactly when a loose pair occupies the text up to k |
| Actions.BangSuffices | src/app/actions.ts:30 | a single `!3d` anywhere is enough for the has-coordinates test |
| Actions.NeedsMarkChar | src/app/actions.ts:30 | a URL with none of `!`, `@`, `?`, `&` never passes the has-coordinates test |
| Actions.OgImage | src/app/actions.ts:53-54 | the `content`-first tag wins; otherwise the `property`-first one; None exactly when neither matches |
| Actions.ContentFirstAtIff | src/app/actions.ts:53 | the `content`-first scanner at p returns c exactly when `content="`, a non-empty quote-free c, `"`, at least one blank and `property="og:image"` follow from p |
| Actions.PropertyFirstAtIff | src/app/actions.ts:54 | the `property`-first scanner at p returns c exactly when `property="og:image"`, at least one blank, `content="`, a non-empty quote-free c and `"` follow from p |
| Actions.ContentTagFound | src/app/actions.ts:53 | any page `pre + content="c"<blanks>property="og:image" + post` whose `pre` holds no `content="` yields c |
| Actions.PropertyTagFound | src/app/actions.ts:54 | any page `pre + property="og:image"<blanks>content="c" + post` with no `content`-first tag anywhere and no `property="og:image"` in `pre` yields c |
| Actions.PropertyTagAlone | src/app/actions.ts:53-54 | a page that is only a `property`-first tag yields its c, since it holds no `content`-first tag |
| Actions.Center | src/app/actions.ts:60 | the `center=` scan gives two decimal texts, and None exactly when no position matches |
| Actions.CenterAtIff | src/app/actions.ts:60 | the scanner at p returns x, y exactly when `?center=` or `&center=` is at p, then a decimal, `%2C` or `,`, and a greedy decimal |
| Actions.CenterFirstAt | src/app/actions.ts:60 | a `center=` match with no `?` or `&` before it is the one found |
| Actions.SynthHasCoordinates | src/app/actions.ts:68 | a synthesised `https://www.google.com/maps?q=lat,lng` itself passes the has-coordinates test |
| Actions.SynthDecodes | src/app/actions.ts:68 | the Google Maps parser accepts the synthesised URL, and its strict `q` step decodes it to `parseFloat` of the copied lat and lng |
| Actions.SynthesisedDecodes | src/app/actions.ts:60-68 | for any og:image whose `center=` scan matches, the URL built from it is accepted and decoded by Google Maps to those two numbers |
| Actions.ExpandUrl | src/app/actions.ts:7-83 | empty URL: "URL is required" with no request; otherwise a HEAD to the prefixed URL; a failed fetch gives "Failed to expand URL"; a resolved URL with coordinates is returned without a GET; otherwise a GET of it, and the result is the synthesised Google link when og:image has a `center`, else the resolved URL; `originalUrl` is always the prefixed URL |

## Left out

- Numbers: JavaScript's number type is not modelled. A coordinate is the decimal token that was matched, so `parseFloat` returns a token (with `Infinity`) and never a rounded double. Printing a number in a link is `Show` of the token, so JavaScript's number-to-string canonical form (dropping trailing zeros, switching to exponent form) is left out.
- ParseFloat: covers an optional sign, digits, an optional fraction, an optional exponent, and `Infinity`. Hexadecimal and other forms `parseFloat` does not accept anyway are not needed.
- QueryString: the `query-string` package is replaced by a splitter. It cuts at `#`, takes the text after the first `?`, trims, drops one leading `?`, `#` or `&`, splits at `&`, turns `+` into a space, splits each piece at its first `=`, and percent-decodes ASCII `%XX` only. A repeated key yields an array value, as the package does. Its `url` field is the text before `#` and before `?`, which is why the OpenStreetMap fragment step can never fire.
- Free-text parsing: the `coordinate-parser` package used for `q` in Google and Apple links is a function parameter that returns a coordinate or fails.
- URL validity: the WHATWG `new URL` check in `detectSource` is a predicate parameter.
- `\s`: modelled as the ECMAScript white space and line terminator set. `toLowerCase` is modelled for ASCII letters only.
- ExpandUrl: the two `fetch` calls are inputs (`resolved`, `page`; None stands for a failed fetch or a thrown error). The request headers, the User-Agent string and `console.error` are left out. The result records which requests would be issued.
- The extraction `catch` (src/lib/geo-utils.ts:53-55) is unreachable in the model, because every parser catches its own errors. `GeoUtils.ErrorIff` states this.
- Google Maps and Here links have no round trip. Both Google Maps links use `api=1&query=`, which none of the decoders read, and no parser accepts Here links; for these the model proves only that lat is written before lng.
- RoundTrips.EarthLinkRoundTrip: requires that lng is negative, does not start with `2`, or has a one-digit whole part. The generated Earth link (src/lib/geo-utils.ts:90) is read through the `/search/` decoder, whose separator class swallows a leading `2` of the longitude that is followed by another digit (`Patterns.SearchSwallowsTwo` shows it on `23.7`). That every such lng fails to read back is not proved in general. The table's Earth link (src/lib/providers.ts:11) is read through the `@` decoder and has no such limit (`RoundTrips.EarthUrlRoundTrip`).
- Decoders.FreeValue: when `q` is repeated, the source hands the array itself to the free-text parser (src/lib/parsers/google-maps.ts:66, src/lib/parsers/apple-maps.ts:29). The model hands it the array's `String` form, the items joined by `,` (`QueryString.JsText`). The parser is a parameter, so what the real parser does with an array rather than a text is not captured.
- The React components, the older extraction copy in the user interface, the debugging script and the colours' rendering are not part of this model.
