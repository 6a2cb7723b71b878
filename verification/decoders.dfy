/**
  The decoders the parsers share: `text.split(d).map(parseFloat)` with its
  NaN test, the same applied to a query value, the free-text fallback, and
  the `@<dec>,<dec>` and `/search/` pattern decoders.
 */
module Decoders {
  import opened Options
  import opened Strings
  import opened Numbers
  import opened Patterns
  import opened QueryString
  import opened Types

  /** Split at d, read the first two pieces with `parseFloat`, and give up
      when either is NaN: a missing second piece is `undefined`, which
      parses as NaN. */
  function SplitPair(x: string, d: char): Option<Coordinates> {
    var parts := Split(x, d);
    if |parts| < 2 then None else Both(ParseFloat(parts[0]), ParseFloat(parts[1]))
  }

  /** The first piece of a split is the text before the first separator. */
  lemma SplitFirst(s: string, d: char)
    ensures Split(s, d)[0] == Before(s, d)
  {
  }

  /** A text without the separator has no second piece, so lng is NaN. */
  lemma SplitPairAbsent(x: string, d: char)
    requires d !in x
    ensures SplitPair(x, d) == None
  {
  }

  /** With the separator present, lat is read from the text before it and
      lng from the text between it and the next one; later pieces are
      ignored. */
  lemma SplitPairCons(a: string, d: char, b: string)
    requires d !in a
    ensures SplitPair(a + [d] + b, d) == Both(ParseFloat(a), ParseFloat(Before(b, d)))
  {
    SplitCons(a, d, b);
    SplitFirst(b, d);
  }

  /** Two printed numbers joined by a separator a number never prints split
      back into the same numbers. */
  lemma SplitPairShown(lat: Num, lng: Num, d: char)
    requires Valid(lat) && Valid(lng) && !NumberChar(d)
    ensures SplitPair(Show(lat) + [d] + Show(lng), d) == Some(Coordinates(lat, lng))
  {
    ShowChars(lat);
    ShowChars(lng);
    SplitPairCons(Show(lat), d, Show(lng));
    ParseShowExact(lat);
    ParseShowExact(lng);
  }

  /** A truthy query value is split at d and read as a pair, and the pair
      is returned when both numbers are real; a falsy value passes on, and
      an array value has no `split` and throws. */
  function SplitValue(v: QueryValue, d: char): Step {
    if !Truthy(v) then Next
    else
      match v
      case Single(Some(t)) => StepOf(SplitPair(t, d))
      case _ => Threw
  }

  /** A single value decodes as its text splits; the empty text, which is
      falsy, splits into nothing either. */
  lemma SplitValueSingle(t: string, d: char)
    ensures SplitValue(Single(Some(t)), d) == StepOf(SplitPair(t, d))
  {
    if t == "" {
      SplitPairAbsent(t, d);
    }
  }

  /** A missing key or one without `=` passes on; a repeated key throws. */
  lemma SplitValueOther(v: QueryValue, d: char)
    requires !(v.Single? && v.value.Some?)
    ensures SplitValue(v, d) == if v.Many? then Threw else Next
  {
  }

  /** A truthy value is handed to the free-text parser as its `String`
      form; what that parser returns is the answer, and an exception it
      throws is swallowed. */
  function FreeValue(v: QueryValue, free: FreeText): (r: Step)
    ensures !r.Threw?
  {
    if Truthy(v) then StepOf(free(JsText(v))) else Next
  }

  /** The leftmost `/search/<dec><sep><dec>` match. */
  function SearchStep(url: string): Step {
    match Search(url)
    case Some((p, (x, y))) =>
      SearchAtSound(url, p);
      Found(Coordinates(Group(url, x), Group(url, y)))
    case None => Next
  }

  /** The leftmost `@<dec>,<dec>` match. */
  function AtStep(url: string): Step {
    match AtPair(url)
    case Some((_, (x, y))) => Found(Coordinates(Group(url, x), Group(url, y)))
    case None => Next
  }
}
