/**
  Numbers as the decimal tokens the parsers read and the links print.

  A coordinate is never a float here: `Num` records the sign, the digits
  before and after the point and the exponent of the token that
  `parseFloat` consumed. `ParseFloat` is ECMAScript's `parseFloat`: skip
  leading white space, then take the longest prefix that is a decimal
  literal (optional sign, `Infinity`, or digits with an optional fraction
  and exponent); no such prefix is `NaN`, here `None`. `Show` prints a
  token, and `ParseShow` proves that parsing inverts it.
 */
module Numbers {
  import opened Options
  import opened Strings

  predicate IsDigit(c: char) {
    '0' <= c <= '9'
  }

  predicate AllDigits(s: string) {
    forall i :: 0 <= i < |s| ==> IsDigit(s[i])
  }

  datatype Exponent = NoExponent | Exponent(negative: bool, digits: string)

  datatype Num =
    | Finite(negative: bool, whole: string, fraction: string, exponent: Exponent)
    | Infinity(negative: bool)

  /** A token `parseFloat` can produce: digits where digits belong, and at
      least one digit in the mantissa and in an exponent. */
  predicate Valid(n: Num) {
    match n
    case Infinity(_) => true
    case Finite(_, w, f, e) =>
      AllDigits(w) && AllDigits(f) && (w != [] || f != [])
      && (e.Exponent? ==> e.digits != [] && AllDigits(e.digits))
  }

  /** A token of the shape `-?\d+\.\d+` that every regular expression of the
      parsers captures. */
  predicate IsDecimalNum(n: Num) {
    n.Finite? && Valid(n) && n.whole != [] && n.fraction != [] && n.exponent == NoExponent
  }

  /** How a `-?\d+\.\d+` token prints, grouped from the right. */
  lemma ShowDecimal(n: Num, rest: string)
    requires IsDecimalNum(n)
    ensures Show(n) + rest == SignText(n.negative) + (n.whole + ("." + (n.fraction + rest)))
    ensures |Show(n)| == |SignText(n.negative)| + |n.whole| + 1 + |n.fraction|
  {
  }

  function SignText(negative: bool): string {
    if negative then "-" else ""
  }

  function FractionText(f: string): string {
    if f == [] then "" else "." + f
  }

  function ExponentText(e: Exponent): string {
    match e
    case NoExponent => ""
    case Exponent(neg, d) => "e" + SignText(neg) + d
  }

  function Show(n: Num): string {
    match n
    case Infinity(neg) => SignText(neg) + "Infinity"
    case Finite(neg, w, f, e) => SignText(neg) + w + FractionText(f) + ExponentText(e)
  }

  /** The characters a printed token is made of. */
  predicate NumberChar(c: char) {
    IsDigit(c) || c == '-' || c == '.' || c == 'e'
    || c == 'I' || c == 'n' || c == 'f' || c == 'i' || c == 't' || c == 'y'
  }

  predicate NumberText(s: string) {
    forall i :: 0 <= i < |s| ==> NumberChar(s[i])
  }

  lemma NumberTextJoin(a: string, b: string)
    requires NumberText(a) && NumberText(b)
    ensures NumberText(a + b)
  {
    forall i | 0 <= i < |a + b|
      ensures NumberChar((a + b)[i])
    {
      if i >= |a| {
        assert (a + b)[i] == b[i - |a|];
      }
    }
  }

  lemma DigitsText(d: string)
    requires AllDigits(d)
    ensures NumberText(d)
  {
  }

  lemma ShowChars(n: Num)
    requires Valid(n)
    ensures |Show(n)| > 0
    ensures forall i :: 0 <= i < |Show(n)| ==> NumberChar(Show(n)[i])
  {
    var sign := SignText(n.negative);
    assert NumberText(sign);
    match n
    case Infinity(neg) =>
      assert NumberText("Infinity");
      NumberTextJoin(sign, "Infinity");
    case Finite(neg, w, f, e) =>
      DigitsText(w);
      DigitsText(f);
      assert NumberText(FractionText(f)) by {
        if f != [] {
          NumberTextJoin(".", f);
        }
      }
      assert NumberText(ExponentText(e)) by {
        if e.Exponent? {
          DigitsText(e.digits);
          NumberTextJoin("e", SignText(e.negative));
          NumberTextJoin("e" + SignText(e.negative), e.digits);
        }
      }
      NumberTextJoin(sign, w);
      NumberTextJoin(sign + w, FractionText(f));
      NumberTextJoin(sign + w + FractionText(f), ExponentText(e));
  }

  /** A printed token holds no character outside its alphabet. */
  lemma ShowAvoids(n: Num, d: char)
    requires Valid(n) && !NumberChar(d)
    ensures d !in Show(n)
  {
    ShowChars(n);
  }

  /** End of the run of digits that starts at index i. */
  function DigitsEnd(s: string, i: nat): (e: nat)
    requires i <= |s|
    decreases |s| - i
    ensures i <= e <= |s|
    ensures e == |s| || !IsDigit(s[e])
  {
    if i == |s| || !IsDigit(s[i]) then i else DigitsEnd(s, i + 1)
  }

  /** Every character of a run that `DigitsEnd` measures is a digit. */
  lemma {:induction false} DigitsIn(s: string, i: nat, e: nat)
    requires i <= |s| && i <= e <= DigitsEnd(s, i)
    ensures AllDigits(s[i..e])
    decreases e - i
  {
    if i < e {
      DigitsIn(s, i + 1, e);
      assert s[i..e] == [s[i]] + s[i + 1..e];
    }
  }

  /** A digit run followed by a non-digit ends where the run ends. */
  lemma {:induction false} DigitsEndAt(s: string, i: nat, e: nat)
    requires i <= e <= |s| && forall j :: i <= j < e ==> IsDigit(s[j])
    requires e == |s| || !IsDigit(s[e])
    ensures DigitsEnd(s, i) == e
    decreases e - i
  {
    if i < e {
      DigitsEndAt(s, i + 1, e);
    }
  }

  /** A run of digits laid down at index k, followed by a non-digit. */
  lemma DigitsEndPrefix(t: string, k: nat, d: string, rest: string)
    requires k <= |t| && t[k..] == d + rest
    requires AllDigits(d)
    requires rest == [] || !IsDigit(rest[0])
    ensures DigitsEnd(t, k) == k + |d|
  {
    forall j | k <= j < k + |d|
      ensures IsDigit(t[j])
    {
      assert t[j] == t[k..][j - k] == d[j - k];
    }
    if k + |d| < |t| {
      assert t[k + |d|] == t[k..][|d|] == rest[0];
    }
    DigitsEndAt(t, k, k + |d|);
  }

  /** The exponent part `[eE][+-]?\d+` at index j, if any. */
  function ExponentAt(t: string, j: nat): (r: Exponent)
    requires j <= |t|
    ensures r.Exponent? ==> r.digits != [] && AllDigits(r.digits)
  {
    if j < |t| && (t[j] == 'e' || t[j] == 'E') then
      var signed := j + 1 < |t| && (t[j + 1] == '-' || t[j + 1] == '+');
      var k := if signed then j + 2 else j + 1;
      var e := DigitsEnd(t, k);
      DigitsIn(t, k, e);
      if e == k then NoExponent else Exponent(signed && t[j + 1] == '-', t[k..e])
    else NoExponent
  }

  /** Where a literal starts, after white space and an optional sign. */
  function SignEnd(t: string): nat {
    if |t| > 0 && (t[0] == '-' || t[0] == '+') then 1 else 0
  }

  /** Does t (after its sign) open with something `parseFloat` accepts? */
  predicate BeginsNumber(t: string) {
    var i := SignEnd(t);
    StartsWith(t[i..], "Infinity")
    || (i < |t| && IsDigit(t[i]))
    || (i + 1 < |t| && t[i] == '.' && IsDigit(t[i + 1]))
  }

  /** ECMAScript `parseFloat` over the decimal-literal grammar. */
  function ParseFloat(s: string): (r: Option<Num>)
    ensures r.Some? ==> Valid(r.value)
    ensures r.None? <==> !BeginsNumber(TrimStart(s))
  {
    var t := TrimStart(s);
    var i := SignEnd(t);
    if StartsWith(t[i..], "Infinity") then Some(Infinity(i == 1 && t[0] == '-'))
    else ParseFinite(t, i)
  }

  /** The digits, fraction and exponent of a finite literal whose digits
      start at index i. */
  function ParseFinite(t: string, i: nat): (r: Option<Num>)
    requires i <= |t|
    ensures r.Some? ==> Valid(r.value) && r.value.Finite?
    ensures r.Some? ==> r.value.negative == (i == 1 && t[0] == '-')
    ensures r.None? <==> !((i < |t| && IsDigit(t[i])) || (i + 1 < |t| && t[i] == '.' && IsDigit(t[i + 1])))
  {
    var w := DigitsEnd(t, i);
    var dotted := w < |t| && t[w] == '.';
    var f := if dotted then DigitsEnd(t, w + 1) else w;
    var fraction := if dotted then t[w + 1..f] else "";
    DigitsIn(t, i, w);
    assert AllDigits(fraction) by {
      if dotted {
        DigitsIn(t, w + 1, f);
      }
    }
    if w == i && fraction == [] then None
    else
      Some(Finite(i == 1 && t[0] == '-', t[i..w], fraction, ExponentAt(t, f)))
  }

  /** What may follow a printed token without extending it. */
  predicate Delimits(rest: string) {
    rest == [] || !(IsDigit(rest[0]) || rest[0] == '.' || rest[0] == 'e' || rest[0] == 'E')
  }

  /** Leading white space does not change what `parseFloat` reads. */
  lemma {:induction false} ParseSkipsSpace(ws: string, s: string)
    requires AllSpace(ws)
    requires s == [] || !IsSpace(s[0])
    ensures ParseFloat(ws + s) == ParseFloat(s)
  {
    var k := SpaceRun(ws + s, 0);
    SpaceRunOver(ws, s);
    assert (ws + s)[|ws|..] == s;
    assert SpaceRun(s, 0) == 0;
  }

  lemma {:induction false} SpaceRunOver(ws: string, s: string)
    requires AllSpace(ws)
    requires s == [] || !IsSpace(s[0])
    ensures SpaceRun(ws + s, 0) == |ws|
  {
    var t := ws + s;
    assert t[..|ws|] == ws;
  }

  /** Parsing inverts printing: a printed token, followed by anything that
      cannot continue it, reads back as the same token. */
  lemma ParseShow(n: Num, rest: string)
    requires Valid(n)
    requires Delimits(rest)
    ensures ParseFloat(Show(n) + rest) == Some(n)
  {
    match n
    case Infinity(neg) =>
      var t := Show(n) + rest;
      assert TrimStart(t) == t;
      assert SignEnd(t) == |SignText(neg)|;
      assert t[SignEnd(t)..] == "Infinity" + rest;
      assert t[SignEnd(t)..][..8] == "Infinity";
    case Finite(neg, w, f, e) =>
      ParseShowFinite(neg, w, f, e, rest);
  }

  /** A printed token on its own reads back as itself. */
  lemma ParseShowExact(n: Num)
    requires Valid(n)
    ensures ParseFloat(Show(n)) == Some(n)
  {
    ParseShow(n, "");
    assert Show(n) + "" == Show(n);
  }

  lemma {:induction false} ParseShowFinite(neg: bool, w: string, f: string, e: Exponent, rest: string)
    requires Valid(Finite(neg, w, f, e))
    requires Delimits(rest)
    ensures ParseFloat(Show(Finite(neg, w, f, e)) + rest) == Some(Finite(neg, w, f, e))
  {
    FiniteLayout(neg, w, f, e, rest);
    FiniteDigits(neg, w, f, e, rest);
  }

  /** Where the digits of a printed finite token start. */
  lemma FiniteLayout(neg: bool, w: string, f: string, e: Exponent, rest: string)
    requires Valid(Finite(neg, w, f, e))
    ensures var t := Show(Finite(neg, w, f, e)) + rest;
      TrimStart(t) == t && SignEnd(t) == |SignText(neg)| && !StartsWith(t[SignEnd(t)..], "Infinity")
  {
    var t := Show(Finite(neg, w, f, e)) + rest;
    var i := |SignText(neg)|;
    var c := if w != [] then w[0] else '.';
    assert t[i] == c;
    assert t[0] == if neg then '-' else c;
    LayoutAt(t, i, c);
  }

  lemma LayoutAt(t: string, i: nat, c: char)
    requires i < |t| && t[i] == c && (IsDigit(c) || c == '.')
    requires i <= 1 && t[0] == (if i == 1 then '-' else c)
    ensures TrimStart(t) == t && SignEnd(t) == i && !StartsWith(t[i..], "Infinity")
  {
    assert SpaceRun(t, 0) == 0;
    assert t[i..][0] == c;
  }

  /** The digits, fraction and exponent of a printed finite token. */
  lemma {:induction false} FiniteDigits(neg: bool, w: string, f: string, e: Exponent, rest: string)
    requires Valid(Finite(neg, w, f, e))
    requires Delimits(rest)
    ensures var t := Show(Finite(neg, w, f, e)) + rest;
      ParseFinite(t, |SignText(neg)|) == Some(Finite(neg, w, f, e))
  {
    var t := Show(Finite(neg, w, f, e)) + rest;
    var i := |SignText(neg)|;
    var tail := FractionText(f) + (ExponentText(e) + rest);
    Regroup(SignText(neg), w, FractionText(f), ExponentText(e), rest);
    assert t[i..] == w + tail;
    assert (i == 1 && t[0] == '-') == neg;
    FiniteAt(t, i, neg, w, f, e, rest);
  }

  lemma Regroup(a: string, b: string, c: string, d: string, e: string)
    ensures a + b + c + d + e == a + (b + (c + (d + e)))
  {
  }

  lemma {:induction false} FiniteAt(t: string, i: nat, neg: bool, w: string, f: string, e: Exponent, rest: string)
    requires i <= |t| && t[i..] == w + (FractionText(f) + (ExponentText(e) + rest))
    requires (i == 1 && t[0] == '-') == neg
    requires Valid(Finite(neg, w, f, e))
    requires Delimits(rest)
    ensures ParseFinite(t, i) == Some(Finite(neg, w, f, e))
  {
    var after := ExponentText(e) + rest;
    var tail := FractionText(f) + after;
    assert after == [] || (!IsDigit(after[0]) && after[0] != '.') by {
      if e.Exponent? {
        assert after[0] == 'e';
      }
    }
    assert tail == [] || !IsDigit(tail[0]) by {
      if f != [] {
        assert tail[0] == '.';
      }
    }
    var wEnd := WholeAt(t, i, w, tail);
    var fEnd := FractionShow(t, wEnd, f, after);
    ExponentShow(t, fEnd, e, rest);
    ParseFiniteOf(t, i, wEnd, fEnd, f, e);
  }

  /** The whole-number digits of a printed token. */
  lemma WholeAt(t: string, i: nat, w: string, tail: string) returns (wEnd: nat)
    requires i <= |t| && t[i..] == w + tail
    requires AllDigits(w)
    requires tail == [] || !IsDigit(tail[0])
    ensures wEnd == i + |w| <= |t|
    ensures DigitsEnd(t, i) == wEnd && t[i..wEnd] == w && t[wEnd..] == tail
  {
    wEnd := i + |w|;
    assert t[wEnd..] == tail;
    DigitsEndPrefix(t, i, w, tail);
    assert t[i..wEnd] == w;
  }

  /** `ParseFinite` once its digit runs are known. */
  lemma ParseFiniteOf(t: string, i: nat, wEnd: nat, fEnd: nat, f: string, e: Exponent)
    requires i <= wEnd <= fEnd <= |t|
    requires DigitsEnd(t, i) == wEnd
    requires var dotted := wEnd < |t| && t[wEnd] == '.';
      (if dotted then DigitsEnd(t, wEnd + 1) else wEnd) == fEnd
      && (if dotted then t[wEnd + 1..fEnd] else "") == f
    requires ExponentAt(t, fEnd) == e
    requires wEnd > i || f != []
    ensures ParseFinite(t, i) == Some(Finite(i == 1 && t[0] == '-', t[i..wEnd], f, e))
  {
  }

  /** The fraction part of a printed token ends where the printing put it. */
  lemma {:induction false} FractionShow(t: string, j: nat, f: string, rest: string) returns (fEnd: nat)
    requires j <= |t| && t[j..] == FractionText(f) + rest
    requires AllDigits(f)
    requires rest == [] || (!IsDigit(rest[0]) && rest[0] != '.')
    ensures fEnd == j + |FractionText(f)| && fEnd <= |t| && t[fEnd..] == rest
    ensures var dotted := j < |t| && t[j] == '.';
      (if dotted then DigitsEnd(t, j + 1) else j) == fEnd
      && (if dotted then t[j + 1..fEnd] else "") == f
  {
    fEnd := j + |FractionText(f)|;
    SplitAt(t, j, FractionText(f), rest);
    if f != [] {
      FractionDotted(t, j, f, rest);
    } else if j < |t| {
      assert t[j] == t[j..][0];
    }
  }

  /** A printed fraction: a point, then its digits up to a non-digit. */
  lemma FractionDotted(t: string, j: nat, f: string, rest: string)
    requires f != [] && j <= |t| && t[j..] == "." + f + rest
    requires AllDigits(f) && (rest == [] || !IsDigit(rest[0]))
    ensures j < |t| && t[j] == '.'
    ensures j + 1 + |f| <= |t| && DigitsEnd(t, j + 1) == j + 1 + |f| && t[j + 1..j + 1 + |f|] == f
  {
    assert t[j..] == "." + (f + rest);
    SplitAt(t, j, ".", f + rest);
    assert t[j] == t[j..j + 1][0];
    SplitAt(t, j + 1, f, rest);
    assert forall m :: j + 1 <= m < j + 1 + |f| ==> t[m] == f[m - j - 1];
    if j + 1 + |f| < |t| {
      assert t[j + 1 + |f|] == t[j + 1 + |f|..][0];
    }
    DigitsEndAt(t, j + 1, j + 1 + |f|);
  }

  /** The exponent part of a printed token reads back as itself. */
  lemma ExponentShow(t: string, j: nat, e: Exponent, rest: string)
    requires j <= |t| && t[j..] == ExponentText(e) + rest
    requires e.Exponent? ==> e.digits != [] && AllDigits(e.digits)
    requires Delimits(rest)
    ensures ExponentAt(t, j) == e
  {
    if e.Exponent? {
      ExponentShowSome(t, j, e.negative, e.digits, rest);
    } else if j < |t| {
      assert t[j] == rest[0];
    }
  }

  lemma {:induction false} ExponentShowSome(t: string, j: nat, en: bool, d: string, rest: string)
    requires j <= |t| && t[j..] == "e" + SignText(en) + d + rest
    requires d != [] && AllDigits(d)
    requires Delimits(rest)
    ensures ExponentAt(t, j) == Exponent(en, d)
  {
    var k := j + 1 + |SignText(en)|;
    assert t[k..] == d + rest;
    assert t[j] == 'e';
    DigitsEndPrefix(t, k, d, rest);
    assert t[k..k + |d|] == d;
    if en {
      assert t[j + 1] == '-';
      ExponentSigned(t, j, d);
    } else {
      assert t[j + 1] == d[0];
      ExponentUnsigned(t, j, d);
    }
  }

  lemma ExponentSigned(t: string, j: nat, d: string)
    requires d != [] && j + 2 + |d| <= |t| && t[j] == 'e' && t[j + 1] == '-'
    requires DigitsEnd(t, j + 2) == j + 2 + |d| && t[j + 2..j + 2 + |d|] == d
    ensures ExponentAt(t, j) == Exponent(true, d)
  {
  }

  lemma ExponentUnsigned(t: string, j: nat, d: string)
    requires d != [] && j + 1 + |d| <= |t| && t[j] == 'e' && IsDigit(t[j + 1])
    requires DigitsEnd(t, j + 1) == j + 1 + |d| && t[j + 1..j + 1 + |d|] == d
    ensures ExponentAt(t, j) == Exponent(false, d)
  {
  }

}
