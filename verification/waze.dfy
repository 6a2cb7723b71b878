/** `WazeParser` (src/lib/parsers/waze.ts): the `ll` query value only. */
module Waze {
  import opened Options
  import opened Strings
  import opened QueryString
  import opened Types
  import opened Decoders

  const Name := "Waze"

  predicate CanParse(url: string) {
    Contains(ToLower(url), "waze.com")
  }

  function Parse(url: string): Option<Coordinates> {
    Outcome(SplitValue(Lookup(ParseUrl(url).query, "ll"), ','))
  }

  /** The result is the split of `ll` when that is a single value. */
  lemma LlDecides(url: string, t: string)
    requires Lookup(ParseUrl(url).query, "ll") == Single(Some(t))
    ensures Parse(url) == SplitPair(t, ',')
  {
    SplitValueSingle(t, ',');
  }

  /** An `ll` without a comma leaves lng NaN, so the result is `null`. */
  lemma NoCommaGivesNull(url: string, t: string)
    requires Lookup(ParseUrl(url).query, "ll") == Single(Some(t))
    requires ',' !in t
    ensures Parse(url) == None
  {
    LlDecides(url, t);
    SplitPairAbsent(t, ',');
  }

  /** Nothing but `ll` is consulted: without a single `ll` value the result
      is `null`. */
  lemma OnlyLl(url: string)
    requires !Lookup(ParseUrl(url).query, "ll").Single? || Lookup(ParseUrl(url).query, "ll").value.None?
    ensures Parse(url) == None
  {
    SplitValueOther(Lookup(ParseUrl(url).query, "ll"), ',');
  }
}
