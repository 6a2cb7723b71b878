/**
  The regular expressions of the link parsers, as scanners over one text.

  A scanner works on positions of the text it is given and reports each
  capture group as a `Span` of that text. A group `(-?\d+\.\d+)` is read back
  by `NumAt`, and `CaptureValue` proves that this is what `parseFloat`
  returns for the captured text. Every scanner follows the matching order of
  ECMAScript regular expressions: the leftmost start position wins, and a
  greedy quantifier tries its longest run first and backtracks one
  character at a time.
 */
module Patterns {
  import opened Options
  import opened Strings
  import opened Numbers

  /** A capture group: the text from index start up to, not including, end. */
  datatype Span = Span(start: nat, end: nat)

  /** Past the optional minus sign of a candidate starting at i. */
  function MinusEnd(s: string, i: nat): (b: nat)
    requires i <= |s|
    ensures i <= b <= |s|
  {
    if i < |s| && s[i] == '-' then i + 1 else i
  }

  /** Where the whole-number digits of a candidate starting at i stop. */
  function PointAt(s: string, i: nat): nat
    requires i <= |s|
  {
    DigitsEnd(s, MinusEnd(s, i))
  }

  /** `-?\d+\.\d` matches at index i. */
  predicate HasPoint(s: string, i: nat)
    requires i <= |s|
  {
    var k := PointAt(s, i);
    MinusEnd(s, i) < k && k + 1 < |s| && s[k] == '.' && IsDigit(s[k + 1])
  }

  /** The text of c is one match of `-?\d+\.\d+` in s: an optional minus, the
      whole run of digits up to a point (a digit cannot match `\.`), and at
      least one fraction digit. */
  predicate DecimalAt(s: string, c: Span) {
    c.start <= |s| && HasPoint(s, c.start)
    && PointAt(s, c.start) + 2 <= c.end <= DigitsEnd(s, PointAt(s, c.start) + 1)
  }

  /** A one-digit `d.d` number at i, followed by a non-digit or the end. */
  lemma ShortDecimal(s: string, i: nat)
    requires i + 3 <= |s| && IsDigit(s[i]) && s[i + 1] == '.' && IsDigit(s[i + 2])
    requires i + 3 == |s| || !IsDigit(s[i + 3])
    ensures DecimalAt(s, Span(i, i + 3))
    ensures NumAt(s, Span(i, i + 3)) == Finite(false, [s[i]], [s[i + 2]], NoExponent)
  {
    assert MinusEnd(s, i) == i;
    assert DigitsEnd(s, i + 1) == i + 1;
    assert DigitsEnd(s, i) == i + 1;
    assert DigitsEnd(s, i + 3) == i + 3;
    assert DigitsEnd(s, i + 2) == i + 3;
  }

  /** Every match holds a literal decimal point: an integer never matches. */
  lemma DecimalNeedsPoint(s: string, c: Span)
    requires DecimalAt(s, c)
    ensures '.' in s
  {
    assert s[PointAt(s, c.start)] == '.';
  }

  /** The greedy match of `-?\d+\.\d+` at index i: the fraction as long as
      the digits go. */
  function DecimalFrom(s: string, i: nat): (r: Option<Span>)
    ensures r.Some? ==> r.value.start == i && DecimalAt(s, r.value)
    ensures r.Some? ==> r.value.end == |s| || !IsDigit(s[r.value.end])
    ensures r.None? ==> forall e :: !DecimalAt(s, Span(i, e))
  {
    if i <= |s| && HasPoint(s, i) then Some(Span(i, DigitsEnd(s, PointAt(s, i) + 1))) else None
  }

  /** The token `parseFloat` reads from a captured `-?\d+\.\d+`. */
  function NumAt(s: string, c: Span): Num
    requires DecimalAt(s, c)
  {
    var k := PointAt(s, c.start);
    Finite(s[c.start] == '-', s[MinusEnd(s, c.start)..k], s[k + 1..c.end], NoExponent)
  }

  /** A captured decimal is a printed token, printed as the captured text. */
  lemma CaptureShow(s: string, c: Span)
    requires DecimalAt(s, c)
    ensures IsDecimalNum(NumAt(s, c))
    ensures Show(NumAt(s, c)) == s[c.start..c.end]
  {
    var n := NumAt(s, c);
    CaptureDigits(s, c);
    CaptureParts(s, c);
    ShowDecimal(n, "");
    assert n.fraction + "" == n.fraction;
  }

  lemma CaptureDigits(s: string, c: Span)
    requires DecimalAt(s, c)
    ensures IsDecimalNum(NumAt(s, c))
  {
    DigitsIn(s, MinusEnd(s, c.start), PointAt(s, c.start));
    DigitsIn(s, PointAt(s, c.start) + 1, c.end);
  }

  /** A capture is its sign, its whole digits, the point and its fraction. */
  lemma CaptureParts(s: string, c: Span)
    requires DecimalAt(s, c)
    ensures var n := NumAt(s, c);
      s[c.start..c.end] == SignText(n.negative) + (n.whole + ("." + n.fraction))
  {
    var i, b, k := c.start, MinusEnd(s, c.start), PointAt(s, c.start);
    var n := NumAt(s, c);
    assert n.whole == s[b..k] && n.fraction == s[k + 1..c.end];
    assert s[i..b] == SignText(n.negative);
    SlicedAtPoint(s, i, b, k, c.end);
  }

  /** A slice holding a point at k is its pieces before and after it. */
  lemma SlicedAtPoint(s: string, i: nat, b: nat, k: nat, e: nat)
    requires i <= b <= k < e <= |s| && s[k] == '.'
    ensures s[i..e] == s[i..b] + (s[b..k] + ("." + s[k + 1..e]))
  {
    assert s[k..k + 1] == ".";
    SliceJoin(s, k, k + 1, e);
    SliceJoin(s, b, k, e);
    SliceJoin(s, i, b, e);
  }

  /** `parseFloat` of a captured decimal is the token `NumAt` reads. */
  lemma CaptureValue(s: string, c: Span)
    requires DecimalAt(s, c)
    ensures ParseFloat(s[c.start..c.end]) == Some(NumAt(s, c))
  {
    CaptureShow(s, c);
    ParseShowExact(NumAt(s, c));
  }

  /** The number `parseFloat` reads from a captured group. */
  function Group(s: string, c: Span): (n: Num)
    requires DecimalAt(s, c)
    ensures ParseFloat(s[c.start..c.end]) == Some(n)
    ensures IsDecimalNum(n) && Show(n) == s[c.start..c.end]
  {
    CaptureValue(s, c);
    CaptureShow(s, c);
    NumAt(s, c)
  }

  /** The whole of a is one match of `-?\d+\.\d+`. */
  predicate IsDecimal(a: string) {
    DecimalAt(a, Span(0, |a|))
  }

  /** A decimal text copied into t at index p, followed by a non-digit, is
      matched greedily there and reads as the same token. */
  lemma DecimalIn(t: string, p: nat, a: string)
    requires IsDecimal(a)
    requires p + |a| <= |t| && forall j :: 0 <= j < |a| ==> t[p + j] == a[j]
    requires p + |a| == |t| || !IsDigit(t[p + |a|])
    ensures DecimalFrom(t, p) == Some(Span(p, p + |a|))
    ensures NumAt(t, Span(p, p + |a|)) == NumAt(a, Span(0, |a|))
  {
    DecimalInFrom(t, p, a);
    DecimalInNum(t, p, a);
  }

  /** The sign and the point of a copied decimal sit where they sat in a. */
  lemma DecimalInFrom(t: string, p: nat, a: string)
    requires IsDecimal(a)
    requires p + |a| <= |t| && forall j :: 0 <= j < |a| ==> t[p + j] == a[j]
    requires p + |a| == |t| || !IsDigit(t[p + |a|])
    ensures MinusEnd(t, p) == p + MinusEnd(a, 0) && PointAt(t, p) == p + PointAt(a, 0)
    ensures DecimalFrom(t, p) == Some(Span(p, p + |a|))
  {
    var b, k := MinusEnd(a, 0), PointAt(a, 0);
    assert MinusEnd(t, p) == p + b by {
      assert t[p] == a[0];
    }
    DigitsEndCopied(t, p, a, b);
    assert t[p + k + 1] == a[k + 1];
    DigitsEndCopied(t, p, a, k + 1);
  }

  lemma DecimalInNum(t: string, p: nat, a: string)
    requires IsDecimal(a)
    requires p + |a| <= |t| && forall j :: 0 <= j < |a| ==> t[p + j] == a[j]
    requires MinusEnd(t, p) == p + MinusEnd(a, 0) && PointAt(t, p) == p + PointAt(a, 0)
    requires DecimalFrom(t, p) == Some(Span(p, p + |a|))
    ensures NumAt(t, Span(p, p + |a|)) == NumAt(a, Span(0, |a|))
  {
    var b, k := MinusEnd(a, 0), PointAt(a, 0);
    assert NumAt(a, Span(0, |a|)) == Finite(a[0] == '-', a[b..k], a[k + 1..], NoExponent);
    assert NumAt(t, Span(p, p + |a|)) == Finite(t[p] == '-', t[p + b..p + k], t[p + k + 1..p + |a|], NoExponent);
    assert t[p] == a[0];
    CopiedSlice(t, p, a, b, k);
    CopiedSlice(t, p, a, k + 1, |a|);
  }

  lemma CopiedSlice(t: string, p: nat, a: string, i: nat, j: nat)
    requires p + |a| <= |t| && forall m :: 0 <= m < |a| ==> t[p + m] == a[m]
    requires i <= j <= |a|
    ensures t[p + i..p + j] == a[i..j]
  {
  }

  /** A digit run of a copied text is the same run in the copy, provided
      the copy does not continue a run that reaches the end of a. */
  lemma {:induction false} DigitsEndCopied(t: string, p: nat, a: string, i: nat)
    requires p + |a| <= |t| && forall j :: 0 <= j < |a| ==> t[p + j] == a[j]
    requires i <= |a|
    requires DigitsEnd(a, i) < |a| || p + |a| == |t| || !IsDigit(t[p + |a|])
    ensures DigitsEnd(t, p + i) == p + DigitsEnd(a, i)
    decreases |a| - i
  {
    if i < |a| {
      assert t[p + i] == a[i];
      if IsDigit(a[i]) {
        DigitsEndCopied(t, p, a, i + 1);
      }
    }
  }

  /** Every character of a run that `DigitsEnd` measures is a digit. */
  lemma DigitBefore(s: string, i: nat, j: nat)
    requires i <= j < |s| && j < DigitsEnd(s, i)
    ensures IsDigit(s[j])
  {
    DigitsIn(s, i, DigitsEnd(s, i));
    assert s[j] == s[i..DigitsEnd(s, i)][j - i];
  }

  /** A decimal match followed by a non-digit is the greedy one. */
  lemma GreedyAt(s: string, x: Span)
    requires DecimalAt(s, x)
    requires x.end == |s| || !IsDigit(s[x.end])
    ensures DecimalFrom(s, x.start) == Some(x)
  {
    var k := PointAt(s, x.start);
    if x.end < DigitsEnd(s, k + 1) {
      DigitBefore(s, k + 1, x.end);
    }
  }

  /** The greedy match of the second group ends where the digits end. */
  predicate Greedy(s: string, y: Span) {
    y.end == |s| || (y.end < |s| && !IsDigit(s[y.end]))
  }

  /** `^(-?\d+\.\d+),\s*(-?\d+\.\d+)$`, the raw coordinate pair. */
  function RawPair(s: string): (r: Option<(Span, Span)>)
    ensures r.Some? ==> DecimalAt(s, r.value.0) && DecimalAt(s, r.value.1)
  {
    match DecimalFrom(s, 0)
    case None => None
    case Some(x) => RawAfter(s, x)
  }

  /** After the first group x: a comma, white space, and the second group. */
  function RawAfter(s: string, x: Span): Option<(Span, Span)>
  {
    if x.end < |s| && s[x.end] == ',' then RawSecond(s, x, x.end + 1 + SpaceRun(s, x.end + 1))
    else None
  }

  /** The second group of the raw pair, tried at index j, up to the end. */
  function RawSecond(s: string, x: Span, j: nat): (r: Option<(Span, Span)>)
    ensures r.Some? ==> r.value.0 == x && r.value.1.start == j && DecimalAt(s, r.value.1)
  {
    match DecimalFrom(s, j)
    case Some(y) => if y.end == |s| then Some((x, y)) else None
    case None => None
  }

  /** What the anchored pattern demands of the two groups it captures. */
  predicate RawMatch(s: string, x: Span, y: Span) {
    x.start == 0 && DecimalAt(s, x) && x.end < |s| && s[x.end] == ','
    && x.end < y.start && DecimalAt(s, y) && y.end == |s|
    && forall j :: x.end < j < y.start ==> IsSpace(s[j])
  }

  /** `RawPair` finds exactly the captures the anchored pattern allows, so
      that pattern has at most one match. */
  lemma RawPairIff(s: string, x: Span, y: Span)
    ensures RawPair(s) == Some((x, y)) <==> RawMatch(s, x, y)
  {
    if RawMatch(s, x, y) {
      RawPairComplete(s, x, y);
    }
  }

  lemma RawPairComplete(s: string, x: Span, y: Span)
    requires RawMatch(s, x, y)
    ensures RawPair(s) == Some((x, y))
  {
    GreedyAt(s, x);
    assert IsDigit(s[y.start]) || s[y.start] == '-';
    SpaceRunAt(s, x.end + 1, y.start);
    GreedyAt(s, y);
    RawPairOf(s, x, y);
  }

  /** `RawPair` from its three steps: the first group, the comma and the
      white space, and the second group running to the end. */
  lemma RawPairOf(s: string, x: Span, y: Span)
    requires DecimalFrom(s, 0) == Some(x) && x.end < |s| && s[x.end] == ','
    requires x.end + 1 + SpaceRun(s, x.end + 1) == y.start
    requires DecimalFrom(s, y.start) == Some(y) && y.end == |s|
    ensures RawPair(s) == Some((x, y))
  {
    RawPairFirst(s, x);
    RawSecondOf(s, x, y);
    RawAfterComma(s, x, y);
  }

  /** Once the first group matches, the rest is `RawAfter`. */
  lemma RawPairFirst(s: string, x: Span)
    requires DecimalFrom(s, 0) == Some(x)
    ensures RawPair(s) == RawAfter(s, x)
  {
  }

  lemma RawAfterComma(s: string, x: Span, y: Span)
    requires x.end < |s| && s[x.end] == ',' && x.end + 1 + SpaceRun(s, x.end + 1) == y.start
    requires RawSecond(s, x, y.start) == Some((x, y))
    ensures RawAfter(s, x) == Some((x, y))
  {
  }

  lemma RawSecondOf(s: string, x: Span, y: Span)
    requires DecimalFrom(s, y.start) == Some(y) && y.end == |s|
    ensures RawSecond(s, x, y.start) == Some((x, y))
  {
  }

  /** `@(-?\d+\.\d+),(-?\d+\.\d+)` tried at index p. */
  function AtPairAt(s: string, p: nat): (r: Option<(Span, Span)>)
    ensures r.Some? ==> DecimalAt(s, r.value.0) && DecimalAt(s, r.value.1)
  {
    if p < |s| && s[p] == '@' then
      match DecimalFrom(s, p + 1)
      case Some(x) =>
        if x.end < |s| && s[x.end] == ',' then
          match DecimalFrom(s, x.end + 1)
          case Some(y) => Some((x, y))
          case None => None
        else None
      case None => None
    else None
  }

  /** What `@(-?\d+\.\d+),(-?\d+\.\d+)` demands of a match at p. */
  predicate AtMatch(s: string, p: nat, x: Span, y: Span) {
    p < |s| && s[p] == '@' && x.start == p + 1 && DecimalAt(s, x)
    && x.end < |s| && s[x.end] == ',' && y.start == x.end + 1 && DecimalAt(s, y)
  }

  /** At a given start the pattern matches exactly as `AtPairAt` says, with
      the second group as long as the digits go. */
  lemma AtPairAtIff(s: string, p: nat, x: Span, y: Span)
    ensures AtPairAt(s, p) == Some((x, y)) <==> AtMatch(s, p, x, y) && Greedy(s, y)
  {
    if AtMatch(s, p, x, y) && Greedy(s, y) {
      GreedyAt(s, x);
      GreedyAt(s, y);
    }
  }

  /** The leftmost match of `@(-?\d+\.\d+),(-?\d+\.\d+)`, with its start. */
  function AtPair(s: string): (r: Option<(nat, (Span, Span))>)
    ensures r.Some? ==> AtPairAt(s, r.value.0) == Some(r.value.1)
    ensures r.Some? ==> forall p: nat :: p < r.value.0 ==> AtPairAt(s, p).None?
    ensures r.None? ==> forall p: nat :: AtPairAt(s, p).None?
  {
    var at := (p: nat) => AtPairAt(s, p);
    assert forall p: nat :: at(p) == AtPairAt(s, p);
    Leftmost(at, 0, |s|)
  }

  /** A match at p with none before it is the first `@` match. */
  lemma AtPairFirstAt(s: string, p: nat, m: (Span, Span))
    requires AtPairAt(s, p) == Some(m) && forall q: nat :: q < p ==> AtPairAt(s, q).None?
    ensures AtPair(s) == Some((p, m))
  {
  }

  /** `<marker>(-?\d+\.\d+)` tried at index p, as in `!3d(-?\d+\.\d+)`. */
  function MarkerAt(s: string, marker: string, p: nat): (r: Option<Span>)
    ensures r.Some? ==> OccursAt(s, marker, p) && r.value.start == p + |marker| && DecimalAt(s, r.value)
  {
    if OccursAt(s, marker, p) then DecimalFrom(s, p + |marker|) else None
  }

  /** The leftmost match of `<marker>(-?\d+\.\d+)`, with its start. */
  function Marker(s: string, marker: string): (r: Option<(nat, Span)>)
    ensures r.Some? ==> MarkerAt(s, marker, r.value.0) == Some(r.value.1)
    ensures r.Some? ==> forall p: nat :: p < r.value.0 ==> MarkerAt(s, marker, p).None?
    ensures r.None? ==> forall p: nat :: MarkerAt(s, marker, p).None?
  {
    var at := (p: nat) => MarkerAt(s, marker, p);
    assert forall p: nat :: at(p) == MarkerAt(s, marker, p);
    Leftmost(at, 0, |s|)
  }

  /** The first start at which the marker matches is the one found. */
  lemma MarkerFirst(s: string, marker: string, p: nat)
    requires MarkerAt(s, marker, p).Some?
    requires forall q: nat :: q < p ==> MarkerAt(s, marker, q).None?
    ensures Marker(s, marker) == Some((p, MarkerAt(s, marker, p).value))
  {
  }

  /** The class `[,%2C\s+]` of the `/search/` pattern: the comma, the
      percent sign, the digit 2, the letter C, white space and plus. */
  predicate IsSeparator(c: char) {
    c == ',' || c == '%' || c == '2' || c == 'C' || IsSpace(c) || c == '+'
  }

  /** A second group that the separator run before it leaves whole: it
      starts outside the class, or with a lone `2` before the point, where
      the run backtracks since no group can start at the `.`. */
  predicate KeepsLng(t: string) {
    |t| > 0 && (!IsSeparator(t[0]) || (|t| > 1 && t[0] == '2' && t[1] == '.'))
  }

  /** `KeepsLng` of a text copied at index i, read off the characters there. */
  lemma KeepsAt(s: string, i: nat, t: string)
    requires i + |t| <= |s| && s[i..i + |t|] == t && KeepsLng(t)
    ensures !IsSeparator(s[i]) || (i + 1 < |s| && s[i] == '2' && s[i + 1] == '.')
  {
    assert s[i] == t[0];
    if |t| > 1 {
      assert s[i + 1] == t[1];
    }
  }

  /** End of the run of separator characters that starts at index i. */
  function SeparatorEnd(s: string, i: nat): (e: nat)
    requires i <= |s|
    decreases |s| - i
    ensures i <= e <= |s|
    ensures e == |s| || !IsSeparator(s[e])
  {
    if i == |s| || !IsSeparator(s[i]) then i else SeparatorEnd(s, i + 1)
  }

  /** Every character of a run that `SeparatorEnd` measures is a separator. */
  lemma {:induction false} SeparatorBefore(s: string, i: nat, j: nat)
    requires i <= j < |s| && j < SeparatorEnd(s, i)
    ensures IsSeparator(s[j])
    decreases j - i
  {
    if i < j {
      SeparatorBefore(s, i + 1, j);
    }
  }

  /** A run of separators ends at the first character that is not one. */
  lemma {:induction false} SeparatorEndAt(s: string, i: nat, e: nat)
    requires i <= e <= |s| && forall j :: i <= j < e ==> IsSeparator(s[j])
    requires e == |s| || !IsSeparator(s[e])
    ensures SeparatorEnd(s, i) == e
    decreases e - i
  {
    if i < e {
      SeparatorEndAt(s, i + 1, e);
    }
  }

  /** With the first group ending at f: `[,%2C\s+]+` backtracks from its
      longest run until the second group `(-?\d+\.\d+)` matches after it. */
  function LngAfter(s: string, f: nat): (r: Option<(nat, Span)>)
    ensures r.Some? ==> f < r.value.0 <= |s| && DecimalFrom(s, r.value.0) == Some(r.value.1)
    ensures r.Some? ==> r.value.0 <= SeparatorEnd(s, f)
    ensures r.Some? ==> forall q: nat :: r.value.0 < q <= SeparatorEnd(s, f) ==> DecimalFrom(s, q).None?
    ensures r.None? && f <= |s| ==> forall q: nat :: f < q <= SeparatorEnd(s, f) ==> DecimalFrom(s, q).None?
  {
    if f <= |s| then
      var at := (q: nat) => DecimalFrom(s, q);
      assert forall q: nat :: at(q) == DecimalFrom(s, q);
      Longest(at, f + 1, SeparatorEnd(s, f))
    else None
  }

  /** With the point of the first group at k: the fraction backtracks from
      its longest run until the rest of the pattern matches after it. */
  function FractionEnd(s: string, k: nat): (r: Option<(nat, (nat, Span))>)
    requires k + 1 <= |s|
    ensures r.Some? ==> k + 2 <= r.value.0 <= DigitsEnd(s, k + 1) && LngAfter(s, r.value.0) == Some(r.value.1)
    ensures r.Some? ==> forall f: nat :: r.value.0 < f <= DigitsEnd(s, k + 1) ==> LngAfter(s, f).None?
    ensures r.None? ==> forall f: nat :: k + 2 <= f <= DigitsEnd(s, k + 1) ==> LngAfter(s, f).None?
  {
    var at := (f: nat) => LngAfter(s, f);
    assert forall f: nat :: at(f) == LngAfter(s, f);
    Longest(at, k + 2, DigitsEnd(s, k + 1))
  }

  /** `/search/(-?\d+\.\d+)[,%2C\s+]+(-?\d+\.\d+)` tried at index p: the
      fraction of the first group backtracks from its longest run, and for
      each length the separator run is tried from its longest. */
  function SearchAt(s: string, p: nat): (r: Option<(Span, Span)>)
  {
    if OccursAt(s, "/search/", p) && HasPoint(s, p + 8) then
      match FractionEnd(s, PointAt(s, p + 8))
      case Some((f, (_, y))) => Some((Span(p + 8, f), y))
      case None => None
    else None
  }

  /** What the `/search/` pattern demands of a match at p. */
  predicate SearchMatch(s: string, p: nat, x: Span, y: Span) {
    OccursAt(s, "/search/", p) && x.start == p + 8 && DecimalAt(s, x)
    && x.end < y.start && DecimalAt(s, y)
    && forall j :: x.end <= j < y.start ==> IsSeparator(s[j])
  }

  /** What `SearchAt` finds is a match of the pattern, with the second group
      as long as the digits go. */
  lemma SearchAtSound(s: string, p: nat)
    requires SearchAt(s, p).Some?
    ensures SearchMatch(s, p, SearchAt(s, p).value.0, SearchAt(s, p).value.1)
    ensures Greedy(s, SearchAt(s, p).value.1)
  {
    var k := PointAt(s, p + 8);
    var (f, (q, y)) := FractionEnd(s, k).value;
    forall j | f <= j < q
      ensures IsSeparator(s[j])
    {
      SeparatorBefore(s, f, j);
    }
  }

  /** Whenever the pattern matches at p, `SearchAt` finds a match there, and
      the one it finds is the regular expression's choice: no match has a
      longer first group, and none with the same first group has a longer
      separator run. */
  lemma SearchAtFirst(s: string, p: nat, x: Span, y: Span)
    requires SearchMatch(s, p, x, y)
    ensures SearchAt(s, p).Some?
    ensures var (x0, y0) := SearchAt(s, p).value;
      x.end < x0.end || (x.end == x0.end && y.start <= y0.start)
  {
    var k := PointAt(s, p + 8);
    SeparatorRun(s, x.end, y.start);
    assert DecimalFrom(s, y.start).Some?;
    assert LngAfter(s, x.end).Some?;
    assert FractionEnd(s, k).Some?;
  }

  /** A run of separators reaches at least as far as it is known to go. */
  lemma {:induction false} SeparatorRun(s: string, i: nat, e: nat)
    requires i <= e <= |s| && forall j :: i <= j < e ==> IsSeparator(s[j])
    ensures e <= SeparatorEnd(s, i)
    decreases e - i
  {
    if i < e {
      SeparatorRun(s, i + 1, e);
    }
  }

  /** The leftmost match of the `/search/` pattern, with its start. */
  function Search(s: string): (r: Option<(nat, (Span, Span))>)
    ensures r.Some? ==> SearchAt(s, r.value.0) == Some(r.value.1)
    ensures r.Some? ==> forall p: nat :: p < r.value.0 ==> SearchAt(s, p).None?
    ensures r.None? ==> forall p: nat :: SearchAt(s, p).None?
  {
    var at := (p: nat) => SearchAt(s, p);
    assert forall p: nat :: at(p) == SearchAt(s, p);
    assert forall p: nat :: p > |s| ==> SearchAt(s, p).None?;
    Leftmost(at, 0, |s|)
  }

  /** A match at p with none before it is the first `/search/` match. */
  lemma SearchFirstAt(s: string, p: nat, m: (Span, Span))
    requires SearchAt(s, p) == Some(m) && forall q: nat :: q < p ==> SearchAt(s, q).None?
    ensures Search(s) == Some((p, m))
  {
  }

  /** A search match at p assembled from its two greedy groups, with a
      single comma between them: a second group whose first character is
      outside the separator class loses nothing to the separator run. */
  lemma SearchOfGroups(s: string, p: nat, f: nat, y: Span)
    requires OccursAt(s, "/search/", p) && DecimalFrom(s, p + 8) == Some(Span(p + 8, f))
    requires f + 1 < |s| && s[f] == ','
    requires !IsSeparator(s[f + 1]) || (f + 2 < |s| && s[f + 1] == '2' && s[f + 2] == '.')
    requires DecimalFrom(s, f + 1) == Some(y)
    ensures SearchAt(s, p) == Some((Span(p + 8, f), y))
  {
    GreedyGroup(s, p + 8, f);
    LngAfterNext(s, f, y);
    FractionEndAt(s, PointAt(s, p + 8), f, (f + 1, y));
    SearchAtOf(s, p, PointAt(s, p + 8), f, f + 1, y);
  }

  /** `DecimalIn` for a decimal found as a slice of the text. */
  lemma DecimalSliceIn(t: string, p: nat, a: string)
    requires IsDecimal(a) && p + |a| <= |t| && t[p..p + |a|] == a
    requires p + |a| == |t| || !IsDigit(t[p + |a|])
    ensures DecimalFrom(t, p) == Some(Span(p, p + |a|))
  {
    assert forall j :: 0 <= j < |a| ==> t[p + j] == a[j];
    DecimalIn(t, p, a);
  }

  /** The greedy match of a first group ends where its fraction digits
      end. */
  lemma GreedyGroup(s: string, i: nat, f: nat)
    requires DecimalFrom(s, i) == Some(Span(i, f))
    ensures i <= |s| && HasPoint(s, i) && PointAt(s, i) + 2 <= f
    ensures PointAt(s, i) + 1 <= |s| && DigitsEnd(s, PointAt(s, i) + 1) == f
  {
  }

  /** A comma followed by a character outside the separator class is a
      separator run of one, so the second group starts right after it. A
      comma followed by `2.` is a run of two, but no group starts at the
      `.`, so the run gives the `2` back. */
  lemma LngAfterNext(s: string, f: nat, y: Span)
    requires f + 1 < |s| && s[f] == ','
    requires !IsSeparator(s[f + 1]) || (f + 2 < |s| && s[f + 1] == '2' && s[f + 2] == '.')
    requires DecimalFrom(s, f + 1) == Some(y)
    ensures LngAfter(s, f) == Some((f + 1, y))
  {
    if !IsSeparator(s[f + 1]) {
      SeparatorEndAt(s, f, f + 1);
    } else {
      SeparatorEndAt(s, f, f + 2);
      assert DecimalFrom(s, f + 2).None?;
    }
  }

  /** A `-?\d+\.\d+` token prints as one whole match of the pattern. */
  lemma ShowIsDecimal(n: Num)
    requires IsDecimalNum(n)
    ensures IsDecimal(Show(n))
  {
    ShowDecimal(n, "");
    assert Show(n) + "" == Show(n) && n.fraction + "" == n.fraction;
    DecimalOfParts(SignText(n.negative), n.whole, n.fraction);
  }

  /** An optional minus, digits, a point and digits make one decimal. */
  lemma DecimalOfParts(sign: string, w: string, f: string)
    requires sign == "" || sign == "-"
    requires w != [] && AllDigits(w) && f != [] && AllDigits(f)
    ensures IsDecimal(sign + (w + ("." + f)))
  {
    var t := sign + (w + ("." + f));
    var b, k := |sign|, |sign| + |w|;
    assert MinusEnd(t, 0) == b by {
      assert t[0] == if sign == "-" then '-' else w[0];
    }
    assert t[b..] == w + ("." + f);
    DigitsEndPrefix(t, b, w, "." + f);
    assert t[k] == '.' && t[k + 1] == f[0];
    assert t[k + 1..] == f + "";
    DigitsEndPrefix(t, k + 1, f, "");
  }

  /** The separator class holds the digit 2, so in `/search/12.5,23.7` the
      separator run swallows the 2 and the second group is `3.7`. */
  lemma SearchSwallowsTwo()
    ensures var s := "/search/12.5,23.7";
      Search(s) == Some((0, (Span(8, 12), Span(14, 17))))
      && NumAt(s, Span(14, 17)) == Finite(false, "3", "7", NoExponent)
  {
    SwallowsAt();
    SwallowsNum();
  }

  lemma SwallowsNum()
    ensures DecimalAt("/search/12.5,23.7", Span(14, 17))
    ensures NumAt("/search/12.5,23.7", Span(14, 17)) == Finite(false, "3", "7", NoExponent)
  {
    ShortDecimal("/search/12.5,23.7", 14);
  }

  lemma SwallowsAt()
    ensures SearchAt("/search/12.5,23.7", 0) == Some((Span(8, 12), Span(14, 17)))
  {
    SwallowsSteps("/search/12.5,23.7");
  }

  lemma SwallowsSteps(s: string)
    requires s == "/search/12.5,23.7"
    ensures SearchAt(s, 0) == Some((Span(8, 12), Span(14, 17)))
  {
    SwallowsPoint();
    SwallowsFraction();
    SearchAtOf(s, 0, 10, 12, 14, Span(14, 17));
  }

  lemma SwallowsPoint()
    ensures OccursAt("/search/12.5,23.7", "/search/", 0)
    ensures HasPoint("/search/12.5,23.7", 8) && PointAt("/search/12.5,23.7", 8) == 10
  {
    var s := "/search/12.5,23.7";
    assert s[..8] == "/search/";
    assert MinusEnd(s, 8) == 8;
    assert DigitsEnd(s, 8) == 10;
  }

  /** A search match at p assembled from its steps. */
  lemma SearchAtOf(s: string, p: nat, k: nat, f: nat, q: nat, y: Span)
    requires OccursAt(s, "/search/", p) && HasPoint(s, p + 8) && PointAt(s, p + 8) == k
    requires k + 1 <= |s| && FractionEnd(s, k) == Some((f, (q, y)))
    ensures SearchAt(s, p) == Some((Span(p + 8, f), y))
  {
  }

  lemma SwallowsFraction()
    ensures FractionEnd("/search/12.5,23.7", 10) == Some((12, (14, Span(14, 17))))
  {
    SwallowsLng();
    SwallowsDigits();
    FractionEndAt("/search/12.5,23.7", 10, 12, (14, Span(14, 17)));
  }

  lemma SwallowsDigits()
    ensures DigitsEnd("/search/12.5,23.7", 11) == 12
  {
    assert DigitsEnd("/search/12.5,23.7", 12) == 12;
  }

  /** When the longest fraction run already lets the second group match,
      the fraction does not backtrack. */
  lemma FractionEndAt(s: string, k: nat, f: nat, v: (nat, Span))
    requires k + 1 <= |s| && DigitsEnd(s, k + 1) == f && k + 2 <= f
    requires LngAfter(s, f) == Some(v)
    ensures FractionEnd(s, k) == Some((f, v))
  {
  }

  lemma SwallowsLng()
    ensures LngAfter("/search/12.5,23.7", 12) == Some((14, Span(14, 17)))
  {
    var s := "/search/12.5,23.7";
    assert SeparatorEnd(s, 12) == 14;
    assert DigitsEnd(s, 14) == 15;
    assert DigitsEnd(s, 16) == 17;
    assert DecimalFrom(s, 14) == Some(Span(14, 17));
  }

  /** The text a greedy `-?\d+\.\d+` match captures is itself a whole
      match. */
  lemma DecimalSlice(s: string, c: Span)
    requires DecimalAt(s, c) && Greedy(s, c)
    ensures IsDecimal(s[c.start..c.end])
  {
    var a := s[c.start..c.end];
    assert forall j :: 0 <= j < |a| ==> s[c.start + j] == a[j];
    DecimalCopied(s, c.start, a);
  }

  lemma DecimalCopied(s: string, p: nat, a: string)
    requires p + |a| <= |s| && forall j :: 0 <= j < |a| ==> s[p + j] == a[j]
    requires DecimalAt(s, Span(p, p + |a|)) && Greedy(s, Span(p, p + |a|))
    ensures IsDecimal(a)
  {
    var b := MinusEnd(a, 0);
    assert p + b == MinusEnd(s, p) by {
      assert a[0] == s[p];
    }
    DigitsEndCopied(s, p, a, b);
    var k := PointAt(a, 0);
    assert p + k == PointAt(s, p);
    assert a[k] == '.' && IsDigit(a[k + 1]) by {
      assert a[k] == s[p + k] && a[k + 1] == s[p + k + 1];
    }
    DigitsEndCopied(s, p, a, k + 1);
    assert HasPoint(a, 0);
    assert k + 2 <= |a| <= DigitsEnd(a, k + 1);
  }

  /** A decimal is made of digits, a minus sign and a point. */
  lemma DecimalChars(a: string)
    requires IsDecimal(a)
    ensures forall j :: 0 <= j < |a| ==> IsDigit(a[j]) || a[j] == '-' || a[j] == '.'
  {
    var b, k := MinusEnd(a, 0), PointAt(a, 0);
    forall j | 0 <= j < |a|
      ensures IsDigit(a[j]) || a[j] == '-' || a[j] == '.'
    {
      if b <= j < k {
        DigitBefore(a, b, j);
      } else if k + 1 <= j {
        DigitBefore(a, k + 1, j);
      }
    }
  }
}
