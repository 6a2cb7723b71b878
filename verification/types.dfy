/**
  The records the parsers exchange (src/lib/parsers/types.ts), and the
  chain of decoders every `parse` is built from: the first decoder that
  decides wins.
 */
module Types {
  import opened Options
  import opened Numbers

  /** A coordinate pair, each number given by the token that denotes it. */
  datatype Coordinates = Coordinates(lat: Num, lng: Num)

  /** A provider link: its display name, URL and brand colour. */
  datatype Provider = Provider(name: string, url: string, color: string)

  /** The free-text coordinate parser (the `coordinate-parser` library): the
      coordinate it reads, or `None` when its constructor throws. */
  type FreeText = string -> Option<Coordinates>

  /** The outcome of one decoder of a chain: it returns a coordinate, passes
      on to the next decoder, or throws (which the parser's outer `catch`
      turns into `null`). */
  datatype Step = Found(coords: Coordinates) | Next | Threw

  /** Runs decoder b only when decoder a passes on. */
  function Then(a: Step, b: Step): (r: Step)
    ensures a.Next? ==> r == b
    ensures !a.Next? ==> r == a
  {
    if a.Next? then b else a
  }

  /** What `parse` returns once the chain has run: the coordinate found, or
      `null` both when every decoder passed and when one threw. */
  function Outcome(s: Step): (r: Option<Coordinates>)
    ensures r.Some? <==> s.Found?
  {
    if s.Found? then Some(s.coords) else None
  }

  /** A decoder that either finds a coordinate or passes on. */
  function StepOf(o: Option<Coordinates>): (r: Step)
    ensures r.Threw? == false && Outcome(r) == o
  {
    match o
    case Some(c) => Found(c)
    case None => Next
  }

  /** `{lat, lng}` when neither number is NaN. */
  function Both(lat: Option<Num>, lng: Option<Num>): (r: Option<Coordinates>)
    ensures r.Some? <==> lat.Some? && lng.Some?
    ensures r.Some? ==> r.value == Coordinates(lat.value, lng.value)
  {
    if lat.Some? && lng.Some? then Some(Coordinates(lat.value, lng.value)) else None
  }
}
