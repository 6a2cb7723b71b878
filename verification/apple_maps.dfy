/**
  `AppleMapsParser` (src/lib/parsers/apple-maps.ts): the `ll` query value
  split at `,`, then the `q` value handed to the free-text parser.
 */
module AppleMaps {
  import opened Options
  import opened Strings
  import opened Numbers
  import opened QueryString
  import opened Types
  import opened Decoders

  const Name := "Apple Maps"

  predicate CanParse(url: string) {
    var lower := ToLower(url);
    Contains(lower, "maps.apple.com") || Contains(lower, "maps.apple")
  }

  /** The `maps.apple.com` test adds nothing. */
  lemma CanParseIff(url: string)
    ensures CanParse(url) <==> Contains(ToLower(url), "maps.apple")
  {
    if Contains(ToLower(url), "maps.apple.com") {
      assert OccursAt("maps.apple.com", "maps.apple", 0);
      ContainsAt("maps.apple.com", "maps.apple", 0);
      ContainsTransitive(ToLower(url), "maps.apple.com", "maps.apple");
    }
  }

  function Parse(url: string, free: FreeText): Option<Coordinates> {
    var query := ParseUrl(url).query;
    Outcome(Then(SplitValue(Lookup(query, "ll"), ','), FreeValue(Lookup(query, "q"), free)))
  }

  /** An `ll` whose two halves parse is the answer. */
  lemma LlWins(url: string, free: FreeText, t: string)
    requires Lookup(ParseUrl(url).query, "ll") == Single(Some(t))
    requires SplitPair(t, ',').Some?
    ensures Parse(url, free) == SplitPair(t, ',')
  {
    SplitValueSingle(t, ',');
  }

  /** An `ll` that is not two numbers falls through to `q`; it does not
      make the parse fail. */
  lemma LlFallsThrough(url: string, free: FreeText, t: string)
    requires Lookup(ParseUrl(url).query, "ll") == Single(Some(t))
    requires SplitPair(t, ',').None?
    ensures Parse(url, free) == Outcome(FreeValue(Lookup(ParseUrl(url).query, "q"), free))
  {
    SplitValueSingle(t, ',');
  }

  /** With no usable `ll`, a missing `q` or a free-text parser that throws
      gives `null`. */
  lemma NeitherGivesNull(url: string, free: FreeText)
    requires SplitValue(Lookup(ParseUrl(url).query, "ll"), ',') == Next
    requires var q := Lookup(ParseUrl(url).query, "q"); !Truthy(q) || free(JsText(q)) == None
    ensures Parse(url, free) == None
  {
  }

  /** A repeated `ll` key makes `split` throw, and `parse` returns `null`
      without consulting `q`. */
  lemma LlArrayFails(url: string, free: FreeText)
    requires Lookup(ParseUrl(url).query, "ll").Many?
    ensures Parse(url, free) == None
  {
    SplitValueOther(Lookup(ParseUrl(url).query, "ll"), ',');
  }
}
