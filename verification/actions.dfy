/**
  The server action that expands a shortened map link (src/app/actions.ts).
  The two network requests it makes are inputs here: the URL the `HEAD`
  request ends at after following redirects, and the body the `GET`
  request returns, each `None` when that request throws. The method also
  reports the requests it made, in order.
 */
module Actions {
  import opened Options
  import opened Strings
  import opened Numbers
  import opened Patterns
  import opened QueryString
  import opened Types
  import GoogleMaps

  /** The value the action resolves to. */
  datatype ExpansionResult =
    | Expanded(expandedUrl: string, originalUrl: string)
    | Failed(error: string)

  /** A network request the action issues. */
  datatype Request = Head(url: string) | Get(url: string)

  const UrlRequired := "URL is required"
  const ExpandFailed := "Failed to expand URL"

  /** What the `HEAD` request is sent to: the input, with `https://` put in
      front unless it already starts with `http`. */
  function Target(url: string): (t: string)
    ensures StartsWith(url, "http") ==> t == url
    ensures !StartsWith(url, "http") ==> t == "https://" + url && StartsWith(t, "http")
  {
    if StartsWith(url, "http") then url else "https://" + url
  }

  // ---------------------------------------------------------------------
  // The has-coordinates test

  /** The class `[-\d.]`. */
  predicate IsLoose(c: char) {
    IsDigit(c) || c == '-' || c == '.'
  }

  /** Where the run of `[-\d.]` characters starting at i stops. */
  function LooseEnd(s: string, i: nat): (e: nat)
    requires i <= |s|
    decreases |s| - i
    ensures i <= e <= |s|
    ensures e == |s| || !IsLoose(s[e])
  {
    if i < |s| && IsLoose(s[i]) then LooseEnd(s, i + 1) else i
  }

  lemma {:induction false} LooseBefore(s: string, i: nat, j: nat)
    requires i <= |s| && i <= j < LooseEnd(s, i)
    ensures IsLoose(s[j])
    decreases j - i
  {
    if i < j {
      LooseBefore(s, i + 1, j);
    }
  }

  lemma {:induction false} LooseEndAt(s: string, i: nat, e: nat)
    requires i <= e <= |s| && forall j :: i <= j < e ==> IsLoose(s[j])
    requires e == |s| || !IsLoose(s[e])
    ensures LooseEnd(s, i) == e
    decreases e - i
  {
    if i < e {
      LooseEndAt(s, i + 1, e);
    }
  }

  /** `[-\d.]+,[-\d.]+` matches at index i. The comma is outside the class,
      so the first run can only end where the class stops. */
  predicate LoosePairAt(s: string, i: nat) {
    i <= |s| && var e := LooseEnd(s, i);
    i < e && e + 1 < |s| && s[e] == ',' && IsLoose(s[e + 1])
  }

  /** What `[-\d.]+,[-\d.]+` demands of a match at i whose comma is at k. */
  predicate LooseMatch(s: string, i: nat, k: nat) {
    i < k && k + 1 < |s| && s[k] == ','
    && (forall j :: i <= j < k ==> IsLoose(s[j])) && IsLoose(s[k + 1])
  }

  /** `LoosePairAt` holds exactly when the pattern matches there, and the
      comma it finds is the only one a match can use. */
  lemma LoosePairIff(s: string, i: nat, k: nat)
    ensures LooseMatch(s, i, k) ==> LoosePairAt(s, i) && LooseEnd(s, i) == k
    ensures LoosePairAt(s, i) ==> LooseMatch(s, i, LooseEnd(s, i))
  {
    if LooseMatch(s, i, k) {
      LooseEndAt(s, i, k);
    }
    if LoosePairAt(s, i) {
      forall j | i <= j < LooseEnd(s, i)
        ensures IsLoose(s[j])
      {
        LooseBefore(s, i, j);
      }
    }
  }

  /** One of the five alternatives of the has-coordinates pattern matches
      at index i: `!3d`, `!4d`, `@n,n`, `[?&]q=n,n` or `[?&]center=n,n`. */
  predicate CoordsAt(s: string, i: nat) {
    OccursAt(s, "!3d", i) || OccursAt(s, "!4d", i)
    || (i < |s| && s[i] == '@' && LoosePairAt(s, i + 1))
    || (i < |s| && (s[i] == '?' || s[i] == '&')
        && ((OccursAt(s, "q=", i + 1) && LoosePairAt(s, i + 3))
            || (OccursAt(s, "center=", i + 1) && LoosePairAt(s, i + 8))))
  }

  /** The has-coordinates pattern matches somewhere in the URL. */
  predicate HasCoordinates(s: string) {
    exists i :: 0 <= i < |s| && CoordsAt(s, i)
  }

  /** A single `!3d` is enough; no number needs to follow it. */
  lemma BangSuffices(pre: string, post: string)
    ensures HasCoordinates(pre + "!3d" + post)
  {
    var s := pre + "!3d" + post;
    assert OccursAt(s, "!3d", |pre|) by {
      assert s[|pre|..|pre| + 3] == "!3d";
    }
    assert CoordsAt(s, |pre|);
  }

  /** A URL without `!`, `@`, `?` and `&` never matches: every alternative
      begins with one of them. */
  lemma NeedsMarkChar(s: string)
    requires '!' !in s && '@' !in s && '?' !in s && '&' !in s
    ensures !HasCoordinates(s)
  {
    forall i | 0 <= i < |s|
      ensures !CoordsAt(s, i)
    {
      assert s[i] != '!' && s[i] != '@' && s[i] != '?' && s[i] != '&';
      assert i + 3 <= |s| ==> s[i..i + 3][0] == s[i];
    }
  }

  // ---------------------------------------------------------------------
  // The og:image meta tag

  const ContentOpen := "content=\""
  const OgProperty := "property=\"og:image\""

  /** The first `"` at or after index i, or the end of the text. */
  function QuoteEnd(s: string, i: nat): (e: nat)
    requires i <= |s|
    decreases |s| - i
    ensures i <= e <= |s|
    ensures e == |s| || s[e] == '"'
  {
    if i < |s| && s[i] != '"' then QuoteEnd(s, i + 1) else i
  }

  lemma {:induction false} QuoteEndAt(s: string, i: nat, e: nat)
    requires i <= e < |s| && s[e] == '"' && forall j :: i <= j < e ==> s[j] != '"'
    ensures QuoteEnd(s, i) == e
    decreases e - i
  {
    if i < e {
      QuoteEndAt(s, i + 1, e);
    }
  }

  lemma {:induction false} QuoteFree(s: string, i: nat, j: nat)
    requires i <= |s| && i <= j < QuoteEnd(s, i)
    ensures s[j] != '"'
    decreases j - i
  {
    if i < j {
      QuoteFree(s, i + 1, j);
    }
  }

  /** `content="([^"]+)"\s+property="og:image"` tried at index p. The group
      runs to the next quote, and the white space to the `p` of `property`,
      so no backtracking can find another match at p. */
  function ContentFirstAt(s: string, p: nat): (r: Option<string>)
    ensures r.Some? ==> r.value != [] && '"' !in r.value
  {
    if !OccursAt(s, ContentOpen, p) then None
    else
      var q := p + |ContentOpen|;
      var e := QuoteEnd(s, q);
      if q < e < |s| then
        var w := SpaceRun(s, e + 1);
        if w >= 1 && OccursAt(s, OgProperty, e + 1 + w) then
          Some(QuotedText(s, q, e))
        else None
      else None
  }

  /** `property="og:image"\s+content="([^"]+)"` tried at index p. */
  function PropertyFirstAt(s: string, p: nat): (r: Option<string>)
    ensures r.Some? ==> r.value != [] && '"' !in r.value
  {
    if !OccursAt(s, OgProperty, p) then None
    else
      var k := p + |OgProperty|;
      var w := SpaceRun(s, k);
      if w >= 1 && OccursAt(s, ContentOpen, k + w) then
        var q := k + w + |ContentOpen|;
        var e := QuoteEnd(s, q);
        if q < e < |s| then Some(QuotedText(s, q, e)) else None
      else None
  }

  /** The text between an opening quote at q - 1 and the first quote after
      it. */
  function QuotedText(s: string, q: nat, e: nat): (t: string)
    requires q < e <= |s| && e == QuoteEnd(s, q)
    ensures t != [] && '"' !in t && |t| == e - q
    ensures forall j :: 0 <= j < |t| ==> t[j] == s[q + j]
  {
    var t := s[q..e];
    forall j | 0 <= j < |t|
      ensures t[j] != '"'
    {
      QuoteFree(s, q, j + q);
    }
    t
  }

  /** The leftmost match of the `content`-first pattern. */
  function ContentFirst(s: string): (r: Option<(nat, string)>)
    ensures r.Some? ==> ContentFirstAt(s, r.value.0) == Some(r.value.1)
    ensures r.Some? ==> forall p: nat :: p < r.value.0 ==> ContentFirstAt(s, p).None?
    ensures r.None? ==> forall p: nat :: ContentFirstAt(s, p).None?
  {
    var at := (p: nat) => ContentFirstAt(s, p);
    assert forall p: nat :: at(p) == ContentFirstAt(s, p);
    assert forall p: nat :: p > |s| ==> ContentFirstAt(s, p).None?;
    Leftmost(at, 0, |s|)
  }

  /** The leftmost match of the `property`-first pattern. */
  function PropertyFirst(s: string): (r: Option<(nat, string)>)
    ensures r.Some? ==> PropertyFirstAt(s, r.value.0) == Some(r.value.1)
    ensures r.Some? ==> forall p: nat :: p < r.value.0 ==> PropertyFirstAt(s, p).None?
    ensures r.None? ==> forall p: nat :: PropertyFirstAt(s, p).None?
  {
    var at := (p: nat) => PropertyFirstAt(s, p);
    assert forall p: nat :: at(p) == PropertyFirstAt(s, p);
    assert forall p: nat :: p > |s| ==> PropertyFirstAt(s, p).None?;
    Leftmost(at, 0, |s|)
  }

  /** The og:image URL of a page: the `content`-first pattern is tried on
      the whole page before the `property`-first one. */
  function OgImage(page: string): (r: Option<string>)
    ensures r.Some? ==> r.value != [] && '"' !in r.value
    ensures ContentFirst(page).Some? ==> r == Some(ContentFirst(page).value.1)
    ensures ContentFirst(page).None? && PropertyFirst(page).Some? ==> r == Some(PropertyFirst(page).value.1)
    ensures r.None? <==> ContentFirst(page).None? && PropertyFirst(page).None?
  {
    match ContentFirst(page)
    case Some((_, c)) => Some(c)
    case None =>
      match PropertyFirst(page)
      case Some((_, c)) => Some(c)
      case None => None
  }

  /** The tag `content="c"`, white space ws, then `property="og:image"`. */
  function ContentTag(c: string, ws: string): string {
    ContentOpen + c + "\"" + ws + OgProperty
  }

  /** The tag `property="og:image"`, white space ws, then `content="c"`. */
  function PropertyTag(ws: string, c: string): string {
    OgProperty + ws + ContentOpen + c + "\""
  }

  /** What `content="([^"]+)"\s+property="og:image"` asks of a match at p
      that captures c: the opening, c itself (not empty, free of quotes),
      the closing quote, w >= 1 white-space characters and the
      `property`. */
  predicate ContentMatch(s: string, p: nat, c: string, w: nat) {
    var q := p + |ContentOpen|;
    var e := q + |c|;
    e + 1 + w <= |s| && OccursAt(s, ContentOpen, p)
    && c != [] && '"' !in c && (forall j :: 0 <= j < |c| ==> s[q + j] == c[j])
    && s[e] == '"'
    && w >= 1 && (forall j :: e + 1 <= j < e + 1 + w ==> IsSpace(s[j]))
    && OccursAt(s, OgProperty, e + 1 + w)
  }

  /** What `property="og:image"\s+content="([^"]+)"` asks of a match at p
      that captures c: the `property`, w >= 1 white-space characters, the
      opening, c itself (not empty, free of quotes) and the closing
      quote. */
  predicate PropertyMatch(s: string, p: nat, w: nat, c: string) {
    var k := p + |OgProperty|;
    var q := k + w + |ContentOpen|;
    var e := q + |c|;
    e < |s| && OccursAt(s, OgProperty, p)
    && w >= 1 && (forall j :: k <= j < k + w ==> IsSpace(s[j]))
    && OccursAt(s, ContentOpen, k + w)
    && c != [] && '"' !in c && (forall j :: 0 <= j < |c| ==> s[q + j] == c[j])
    && s[e] == '"'
  }

  /** `ContentFirstAt` yields c at p exactly when the pattern can match
      there capturing c. */
  lemma ContentFirstAtIff(s: string, p: nat, c: string)
    ensures ContentFirstAt(s, p) == Some(c) <==> exists w :: ContentMatch(s, p, c, w)
  {
    ContentAtSound(s, p);
    if exists w :: ContentMatch(s, p, c, w) {
      var w :| ContentMatch(s, p, c, w);
      ContentAtComplete(s, p, c, w);
    }
  }

  lemma ContentAtSound(s: string, p: nat)
    ensures ContentFirstAt(s, p).Some? ==> exists w :: ContentMatch(s, p, ContentFirstAt(s, p).value, w)
  {
    if ContentFirstAt(s, p).Some? {
      var c := ContentFirstAt(s, p).value;
      var q := p + |ContentOpen|;
      var e := QuoteEnd(s, q);
      assert c == QuotedText(s, q, e);
      assert ContentMatch(s, p, c, SpaceRun(s, e + 1));
    }
  }

  lemma ContentAtComplete(s: string, p: nat, c: string, w: nat)
    requires ContentMatch(s, p, c, w)
    ensures ContentFirstAt(s, p) == Some(c)
  {
    var q := p + |ContentOpen|;
    var e := q + |c|;
    forall j | q <= j < e
      ensures s[j] != '"'
    {
      assert s[j] == c[j - q];
    }
    QuoteEndAt(s, q, e);
    assert s[e + 1 + w] == s[e + 1 + w..e + 1 + w + |OgProperty|][0] == 'p';
    SpaceRunAt(s, e + 1, e + 1 + w);
    assert QuotedText(s, q, e) == c;
    ContentAtOf(s, p, e, w, c);
  }

  /** A `content`-first match at p from its steps: the opening, the quoted
      text up to e, a run of w blanks, and the `property`. */
  lemma ContentAtOf(s: string, p: nat, e: nat, w: nat, c: string)
    requires OccursAt(s, ContentOpen, p)
    requires p + |ContentOpen| < e < |s| && QuoteEnd(s, p + |ContentOpen|) == e
    requires w >= 1 && SpaceRun(s, e + 1) == w && OccursAt(s, OgProperty, e + 1 + w)
    requires QuotedText(s, p + |ContentOpen|, e) == c
    ensures ContentFirstAt(s, p) == Some(c)
  {
  }

  /** `PropertyFirstAt` yields c at p exactly when the pattern can match
      there capturing c. */
  lemma PropertyFirstAtIff(s: string, p: nat, c: string)
    ensures PropertyFirstAt(s, p) == Some(c) <==> exists w :: PropertyMatch(s, p, w, c)
  {
    PropertyAtSound(s, p);
    if exists w :: PropertyMatch(s, p, w, c) {
      var w :| PropertyMatch(s, p, w, c);
      PropertyAtComplete(s, p, w, c);
    }
  }

  lemma PropertyAtSound(s: string, p: nat)
    ensures PropertyFirstAt(s, p).Some? ==> exists w :: PropertyMatch(s, p, w, PropertyFirstAt(s, p).value)
  {
    if PropertyFirstAt(s, p).Some? {
      var c := PropertyFirstAt(s, p).value;
      var k := p + |OgProperty|;
      var w := SpaceRun(s, k);
      var q := k + w + |ContentOpen|;
      var e := QuoteEnd(s, q);
      assert c == QuotedText(s, q, e);
      assert PropertyMatch(s, p, w, c);
    }
  }

  lemma PropertyAtComplete(s: string, p: nat, w: nat, c: string)
    requires PropertyMatch(s, p, w, c)
    ensures PropertyFirstAt(s, p) == Some(c)
  {
    var k := p + |OgProperty|;
    var q := k + w + |ContentOpen|;
    var e := q + |c|;
    forall j | q <= j < e
      ensures s[j] != '"'
    {
      assert s[j] == c[j - q];
    }
    QuoteEndAt(s, q, e);
    assert s[k + w] == s[k + w..k + w + |ContentOpen|][0] == 'c';
    SpaceRunAt(s, k, k + w);
    assert QuotedText(s, q, e) == c;
    PropertyAtOf(s, p, w, e, c);
  }

  /** A `property`-first match at p from its steps: the `property`, a run
      of w blanks, the opening, and the quoted text up to e. */
  lemma PropertyAtOf(s: string, p: nat, w: nat, e: nat, c: string)
    requires OccursAt(s, OgProperty, p) && p + |OgProperty| <= |s|
    requires w >= 1 && SpaceRun(s, p + |OgProperty|) == w
    requires OccursAt(s, ContentOpen, p + |OgProperty| + w)
    requires p + |OgProperty| + w + |ContentOpen| < e < |s|
    requires QuoteEnd(s, p + |OgProperty| + w + |ContentOpen|) == e
    requires QuotedText(s, p + |OgProperty| + w + |ContentOpen|, e) == c
    ensures PropertyFirstAt(s, p) == Some(c)
  {
  }

  /** A tag written `content` first is found wherever it stands on the
      page and whatever white space separates its attributes, provided no
      `content="` comes before it. */
  lemma ContentTagFound(pre: string, c: string, ws: string, post: string)
    requires c != [] && '"' !in c && ws != [] && AllSpace(ws)
    requires !Contains(pre, ContentOpen)
    ensures OgImage(pre + ContentTag(c, ws) + post) == Some(c)
  {
    var t := ContentTag(c, ws);
    var s := pre + t + post;
    assert forall j :: 0 <= j < |t| ==> s[|pre| + j] == t[j];
    assert forall j :: 0 <= j < |pre| ==> s[j] == pre[j];
    ContentTagMatch(s, |pre|, c, ws);
    ContentAtComplete(s, |pre|, c, |ws|);
    ContentNoneBefore(s, pre);
    ContentLeftmost(s, |pre|, c);
  }

  /** A copy of a `content`-first tag at p is a match there. */
  lemma ContentTagMatch(s: string, p: nat, c: string, ws: string)
    requires c != [] && '"' !in c && ws != [] && AllSpace(ws)
    requires p + |ContentTag(c, ws)| <= |s|
    requires forall j :: 0 <= j < |ContentTag(c, ws)| ==> s[p + j] == ContentTag(c, ws)[j]
    ensures ContentMatch(s, p, c, |ws|)
  {
    var t, e := ContentTag(c, ws), |ContentOpen| + |c|;
    ContentTagChars(c, ws);
    OccursOfChars(s, ContentOpen, p);
    forall j | p + e + 1 <= j < p + e + 1 + |ws|
      ensures IsSpace(s[j])
    {
      assert s[j] == t[j - p] == ws[j - p - e - 1];
    }
    OccursOfChars(s, OgProperty, p + e + 1 + |ws|);
  }

  /** Where each part of a `content`-first tag stands in it. */
  lemma ContentTagChars(c: string, ws: string)
    ensures var t, q := ContentTag(c, ws), |ContentOpen|;
      |t| == q + |c| + 1 + |ws| + |OgProperty|
      && (forall j :: 0 <= j < q ==> t[j] == ContentOpen[j])
      && (forall j :: 0 <= j < |c| ==> t[q + j] == c[j])
      && t[q + |c|] == '"'
      && (forall j :: 0 <= j < |ws| ==> t[q + |c| + 1 + j] == ws[j])
      && (forall j :: 0 <= j < |OgProperty| ==> t[q + |c| + 1 + |ws| + j] == OgProperty[j])
  {
  }

  /** Characters laid down one by one make an occurrence. */
  lemma OccursOfChars(s: string, pat: string, i: nat)
    requires i + |pat| <= |s| && forall j :: 0 <= j < |pat| ==> s[i + j] == pat[j]
    ensures OccursAt(s, pat, i)
  {
    assert s[i..i + |pat|] == pat;
  }

  /** Before a `content="` that follows text free of `content="`, no
      `content="` starts: one straddling the two would need a second `c`
      inside `content="`, and there is none. */
  lemma ContentNoneBefore(s: string, pre: string)
    requires OccursAt(s, ContentOpen, |pre|)
    requires forall j :: 0 <= j < |pre| ==> s[j] == pre[j]
    requires !Contains(pre, ContentOpen)
    ensures forall p: nat :: p < |pre| ==> ContentFirstAt(s, p).None?
  {
    var n := |ContentOpen|;
    forall p: nat | p < |pre|
      ensures !OccursAt(s, ContentOpen, p)
    {
      if p + n <= |pre| {
        NotContainedAt(pre, ContentOpen, p);
        assert pre[p..p + n] == s[p..p + n];
      } else {
        ContentOpenAlone(s, p, |pre|);
      }
    }
  }

  /** A pattern a text does not contain occurs nowhere in it. */
  lemma NotContainedAt(s: string, pat: string, i: nat)
    requires !Contains(s, pat)
    ensures !OccursAt(s, pat, i)
  {
    ContainsIff(s, pat);
  }

  /** Two occurrences of `content="` cannot overlap. */
  lemma ContentOpenAlone(s: string, p: nat, m: nat)
    requires OccursAt(s, ContentOpen, m) && p < m < p + |ContentOpen|
    ensures !OccursAt(s, ContentOpen, p)
  {
    var i := m - p;
    assert s[m] == s[m..m + |ContentOpen|][0] == 'c';
    assert ContentOpen[i] != 'c';
    assert p + |ContentOpen| <= |s| ==> s[p..p + |ContentOpen|][i] == s[m];
  }

  /** A `content`-first match at p with none before it is the page's
      og:image. */
  lemma ContentLeftmost(s: string, p: nat, c: string)
    requires ContentFirstAt(s, p) == Some(c)
    requires forall p': nat :: p' < p ==> ContentFirstAt(s, p').None?
    ensures OgImage(s) == Some(c)
  {
    assert ContentFirst(s).Some?;
  }

  /** A tag written `property` first is found wherever it stands on the
      page and whatever white space separates its attributes, provided the
      page holds no `content`-first match, which is tried first, and no
      `property="og:image"` comes before it. */
  lemma PropertyTagFound(pre: string, ws: string, c: string, post: string)
    requires c != [] && '"' !in c && ws != [] && AllSpace(ws)
    requires !Contains(pre, OgProperty)
    requires forall p: nat, d: string, w: nat :: !ContentMatch(pre + PropertyTag(ws, c) + post, p, d, w)
    ensures OgImage(pre + PropertyTag(ws, c) + post) == Some(c)
  {
    var t := PropertyTag(ws, c);
    var s := pre + t + post;
    assert forall j :: 0 <= j < |t| ==> s[|pre| + j] == t[j];
    assert forall j :: 0 <= j < |pre| ==> s[j] == pre[j];
    NoContentMatch(s);
    PropertyTagMatch(s, |pre|, ws, c);
    PropertyAtComplete(s, |pre|, |ws|, c);
    PropertyNoneBefore(s, pre);
    PropertyLeftmost(s, |pre|, c);
  }

  /** A page with no `content`-first match anywhere has no leftmost one. */
  lemma NoContentMatch(s: string)
    requires forall p: nat, d: string, w: nat :: !ContentMatch(s, p, d, w)
    ensures ContentFirst(s).None?
  {
    forall p: nat
      ensures ContentFirstAt(s, p).None?
    {
      ContentAtSound(s, p);
    }
  }

  /** A copy of a `property`-first tag at p is a match there. */
  lemma PropertyTagMatch(s: string, p: nat, ws: string, c: string)
    requires c != [] && '"' !in c && ws != [] && AllSpace(ws)
    requires p + |PropertyTag(ws, c)| <= |s|
    requires forall j :: 0 <= j < |PropertyTag(ws, c)| ==> s[p + j] == PropertyTag(ws, c)[j]
    ensures PropertyMatch(s, p, |ws|, c)
  {
    var t, k := PropertyTag(ws, c), |OgProperty|;
    PropertyTagChars(ws, c);
    OccursOfChars(s, OgProperty, p);
    forall j | p + k <= j < p + k + |ws|
      ensures IsSpace(s[j])
    {
      assert s[j] == t[j - p] == ws[j - p - k];
    }
    OccursOfChars(s, ContentOpen, p + k + |ws|);
  }

  /** Where each part of a `property`-first tag stands in it. */
  lemma PropertyTagChars(ws: string, c: string)
    ensures var t, k := PropertyTag(ws, c), |OgProperty|;
      var q := k + |ws| + |ContentOpen|;
      |t| == q + |c| + 1
      && (forall j :: 0 <= j < k ==> t[j] == OgProperty[j])
      && (forall j :: 0 <= j < |ws| ==> t[k + j] == ws[j])
      && (forall j :: 0 <= j < |ContentOpen| ==> t[k + |ws| + j] == ContentOpen[j])
      && (forall j :: 0 <= j < |c| ==> t[q + j] == c[j])
      && t[q + |c|] == '"'
  {
  }

  /** Before a `property="og:image"` that follows text free of it, no
      `property="og:image"` starts: one straddling the two would have to
      begin at the `p` of `og:image"`, which is not followed by `r`. */
  lemma PropertyNoneBefore(s: string, pre: string)
    requires OccursAt(s, OgProperty, |pre|)
    requires forall j :: 0 <= j < |pre| ==> s[j] == pre[j]
    requires !Contains(pre, OgProperty)
    ensures forall p: nat :: p < |pre| ==> PropertyFirstAt(s, p).None?
  {
    var n := |OgProperty|;
    forall p: nat | p < |pre|
      ensures !OccursAt(s, OgProperty, p)
    {
      if p + n <= |pre| {
        NotContainedAt(pre, OgProperty, p);
        assert pre[p..p + n] == s[p..p + n];
      } else {
        PropertyAlone(s, p, |pre|);
      }
    }
  }

  /** Two occurrences of `property="og:image"` cannot overlap: the only
      other `p` in it is followed by `e`, not `r`. */
  lemma PropertyAlone(s: string, p: nat, m: nat)
    requires OccursAt(s, OgProperty, m) && p < m < p + |OgProperty|
    ensures !OccursAt(s, OgProperty, p)
  {
    var n, i := |OgProperty|, m - p;
    assert s[m] == s[m..m + n][0] == 'p';
    assert s[m + 1] == s[m..m + n][1] == 'r';
    assert OgProperty[i] == 'p' ==> i == 3;
    assert p + n <= |s| ==> s[p..p + n][i] == s[m];
    assert p + n <= |s| && i == 3 ==> s[p..p + n][4] == s[m + 1];
  }

  /** A `property`-first match at p with none before it, on a page with no
      `content`-first match, is the page's og:image. */
  lemma PropertyLeftmost(s: string, p: nat, c: string)
    requires ContentFirst(s).None?
    requires PropertyFirstAt(s, p) == Some(c)
    requires forall p': nat :: p' < p ==> PropertyFirstAt(s, p').None?
    ensures OgImage(s) == Some(c)
  {
    assert PropertyFirst(s).Some?;
  }

  /** A tag written `property` first, alone on the page, is found: the
      `content`-first pattern cannot match there. */
  lemma PropertyTagAlone(c: string)
    requires c != [] && '"' !in c
    ensures OgImage(OgProperty + " " + ContentOpen + c + "\"") == Some(c)
  {
    var s := OgProperty + " " + ContentOpen + c + "\"";
    NoContentFirst(s, c);
    forall p: nat, d: string, w: nat
      ensures !ContentMatch(s, p, d, w)
    {
      ContentFirstAtIff(s, p, d);
    }
    assert s == [] + PropertyTag(" ", c) + [];
    assert !Contains([], OgProperty);
    PropertyTagFound([], " ", c, []);
  }

  /** In a page holding only a `property`-first tag, the `content`-first
      pattern cannot match: its `content="` can only be the tag's own, and
      the quote closing that value ends the page, with no white space after
      it. */
  lemma NoContentFirst(s: string, c: string)
    requires c != [] && '"' !in c
    requires s == OgProperty + " " + ContentOpen + c + "\""
    ensures ContentFirst(s).None?
  {
    var head := OgProperty + " ";
    assert |head| == 20 && 'c' !in head;
    assert s[..20] == head;
    assert forall j :: 0 <= j < 20 ==> s[j] == head[j] && s[j] != 'c';
    assert forall j :: 29 <= j < |s| - 1 ==> s[j] == c[j - 29] && s[j] != '"';
    forall p: nat
      ensures ContentFirstAt(s, p).None?
    {
      if OccursAt(s, ContentOpen, p) {
        assert s[p] == s[p..p + |ContentOpen|][0] == 'c';
        var e := QuoteEnd(s, p + |ContentOpen|);
        assert |s| - 1 <= e;
      }
    }
  }

  // ---------------------------------------------------------------------
  // The static-map centre

  /** `[?&]center=(-?\d+\.\d+)(?:%2C|,)(-?\d+\.\d+)` tried at index p. The
      first group cannot give back digits, since what follows it must be
      `%` or `,`. */
  function CenterAt(s: string, p: nat): (r: Option<(Span, Span)>)
    ensures r.Some? ==> DecimalAt(s, r.value.0) && DecimalAt(s, r.value.1)
    ensures r.Some? ==> Greedy(s, r.value.0) && Greedy(s, r.value.1)
  {
    if p < |s| && (s[p] == '?' || s[p] == '&') && OccursAt(s, "center=", p + 1) then
      match DecimalFrom(s, p + 8)
      case None => None
      case Some(x) =>
        var j := if OccursAt(s, "%2C", x.end) then x.end + 3
                 else if x.end < |s| && s[x.end] == ',' then x.end + 1
                 else 0;
        if j == 0 then None
        else
          match DecimalFrom(s, j)
          case Some(y) => Some((x, y))
          case None => None
    else None
  }

  /** The leftmost match of the centre pattern. */
  function CenterSearch(s: string): (r: Option<(nat, (Span, Span))>)
    ensures r.Some? ==> CenterAt(s, r.value.0) == Some(r.value.1)
    ensures r.Some? ==> forall p: nat :: p < r.value.0 ==> CenterAt(s, p).None?
    ensures r.None? ==> forall p: nat :: CenterAt(s, p).None?
  {
    var at := (p: nat) => CenterAt(s, p);
    assert forall p: nat :: at(p) == CenterAt(s, p);
    assert forall p: nat :: p > |s| ==> CenterAt(s, p).None?;
    Leftmost(at, 0, |s|)
  }

  /** The two captured texts of the centre pattern, copied as they are. */
  function Center(og: string): (r: Option<(string, string)>)
    ensures r.Some? ==> IsDecimal(r.value.0) && IsDecimal(r.value.1)
    ensures r.None? <==> CenterSearch(og).None?
  {
    match CenterSearch(og)
    case Some((_, (x, y))) =>
      DecimalSlice(og, x);
      DecimalSlice(og, y);
      Some((og[x.start..x.end], og[y.start..y.end]))
    case None => None
  }

  /** What the centre pattern demands of a match at p with groups x and
      y: the marker, a decimal, `%2C` or `,`, and a decimal. */
  predicate CenterMatch(s: string, p: nat, x: Span, y: Span) {
    p < |s| && (s[p] == '?' || s[p] == '&') && OccursAt(s, "center=", p + 1)
    && x.start == p + 8 && DecimalAt(s, x)
    && ((OccursAt(s, "%2C", x.end) && y.start == x.end + 3)
        || (x.end < |s| && s[x.end] == ',' && y.start == x.end + 1))
    && DecimalAt(s, y)
  }

  /** `CenterAt` finds exactly the matches of the pattern at p whose second
      group runs as far as the digits go, which is the one the regular
      expression chooses. */
  lemma CenterAtIff(s: string, p: nat, x: Span, y: Span)
    ensures CenterAt(s, p) == Some((x, y)) <==> CenterMatch(s, p, x, y) && Greedy(s, y)
  {
    if CenterMatch(s, p, x, y) && Greedy(s, y) {
      CenterAtComplete(s, p, x, y);
    }
    if CenterAt(s, p) == Some((x, y)) {
      CenterAtSound(s, p, x, y);
    }
  }

  lemma CenterAtSound(s: string, p: nat, x: Span, y: Span)
    requires CenterAt(s, p) == Some((x, y))
    ensures CenterMatch(s, p, x, y) && Greedy(s, y)
  {
  }

  lemma CenterAtComplete(s: string, p: nat, x: Span, y: Span)
    requires CenterMatch(s, p, x, y) && Greedy(s, y)
    ensures CenterAt(s, p) == Some((x, y))
  {
    if OccursAt(s, "%2C", x.end) {
      assert s[x.end] == "%2C"[0];
    }
    GreedyAt(s, x);
    GreedyAt(s, y);
    CenterAtOf(s, p, x, y);
  }

  /** `CenterAt` from its steps: the marker, the first group, the
      separator and the second group. */
  lemma CenterAtOf(s: string, p: nat, x: Span, y: Span)
    requires p < |s| && (s[p] == '?' || s[p] == '&') && OccursAt(s, "center=", p + 1)
    requires DecimalFrom(s, p + 8) == Some(x)
    requires y.start == if OccursAt(s, "%2C", x.end) then x.end + 3
                        else if x.end < |s| && s[x.end] == ',' then x.end + 1
                        else 0
    requires y.start != 0 && DecimalFrom(s, y.start) == Some(y)
    ensures CenterAt(s, p) == Some((x, y))
  {
  }

  /** A match at p wins when no `?` or `&` comes before it. */
  lemma CenterFirstAt(s: string, p: nat)
    requires CenterAt(s, p).Some?
    requires forall t :: 0 <= t < p ==> s[t] != '?' && s[t] != '&'
    ensures CenterSearch(s) == Some((p, CenterAt(s, p).value))
    ensures Center(s) == Some((s[CenterAt(s, p).value.0.start..CenterAt(s, p).value.0.end],
                               s[CenterAt(s, p).value.1.start..CenterAt(s, p).value.1.end]))
  {
    CenterNoneBefore(s, p);
    var (x, y) := CenterAt(s, p).value;
    assert CenterSearch(s) == Some((p, (x, y)));
    CenterText(s, p, x, y);
  }

  /** No match can start before the first `?` or `&`. */
  lemma CenterNoneBefore(s: string, p: nat)
    requires p <= |s|
    requires forall t :: 0 <= t < p ==> s[t] != '?' && s[t] != '&'
    ensures forall t: nat :: t < p ==> CenterAt(s, t).None?
  {
  }

  /** The centre texts are the two captures of the match found. */
  lemma CenterText(s: string, p: nat, x: Span, y: Span)
    requires CenterSearch(s) == Some((p, (x, y)))
    ensures Center(s) == Some((s[x.start..x.end], s[y.start..y.end]))
  {
  }

  // ---------------------------------------------------------------------
  // The synthesised link

  const SynthPrefix := "https://www.google.com/maps?q="

  /** The Google Maps link built from the two centre texts. */
  function Synth(lat: string, lng: string): (u: string)
    ensures |u| == |SynthPrefix| + |lat| + 1 + |lng|
    ensures u[..|SynthPrefix|] == SynthPrefix
  {
    SynthPrefix + lat + "," + lng
  }

  lemma SynthLiterals()
    ensures SynthPrefix == "https://www.google.com/maps" + "?" + "q" + "="
    ensures OccursAt("https://www.google.com/maps", "google.com/maps", 12)
    ensures ToLower("google.com/maps") == "google.com/maps"
    ensures 'r' !in SynthPrefix && |SynthPrefix| == 30
    ensures SynthPrefix[27] == '?' && SynthPrefix[28..30] == "q="
  {
    SynthPrefixShape();
  }

  lemma SynthPrefixShape()
    ensures 'r' !in SynthPrefix && |SynthPrefix| == 30
    ensures SynthPrefix[27] == '?' && SynthPrefix[28..30] == "q="
  {
  }

  /** The synthesised link is itself recognised as holding coordinates
      (its `?q=n,n`), so expanding it again returns it unchanged. */
  lemma SynthHasCoordinates(a: string, b: string)
    requires IsDecimal(a) && IsDecimal(b)
    ensures HasCoordinates(Synth(a, b))
  {
    var u := Synth(a, b);
    var i := 30;
    var k := i + |a|;
    SynthLiterals();
    DecimalChars(a);
    DecimalChars(b);
    assert forall t :: 0 <= t < |a| ==> u[i + t] == a[t];
    assert u[k] == ',' && u[k + 1] == b[0];
    assert OccursAt(u, "q=", 28) by {
      assert u[28..30] == SynthPrefix[28..30];
    }
    assert LooseMatch(u, i, k) by {
      forall j | i <= j < k
        ensures IsLoose(u[j])
      {
        assert u[j] == a[j - i];
      }
    }
    LoosePairIff(u, i, k);
    assert u[27] == '?';
    assert CoordsAt(u, 27);
  }

  /** The `q` text of the synthesised link is the raw pair `a,b`, and its
      two groups read as `a` and `b` do. */
  lemma SynthPair(a: string, b: string)
    requires IsDecimal(a) && IsDecimal(b)
    ensures var t := a + "," + b;
      var x, y := Span(0, |a|), Span(|a| + 1, |t|);
      RawPair(t) == Some((x, y))
      && ParseFloat(a) == Some(Group(t, x)) && ParseFloat(b) == Some(Group(t, y))
  {
    SynthRaw(a, b);
    SynthGroups(a, b);
  }

  /** Both halves, captured, read as what `parseFloat` reads from them. */
  lemma SynthGroups(a: string, b: string)
    requires var t := a + "," + b;
      DecimalAt(t, Span(0, |a|)) && DecimalAt(t, Span(|a| + 1, |t|))
    ensures var t := a + "," + b;
      ParseFloat(a) == Some(Group(t, Span(0, |a|)))
      && ParseFloat(b) == Some(Group(t, Span(|a| + 1, |t|)))
  {
    var t := a + "," + b;
    SynthSlices(a, b);
    GroupOf(t, Span(0, |a|), a);
    GroupOf(t, Span(|a| + 1, |t|), b);
  }

  /** The strict pattern matches the joined pair at the two halves. */
  lemma SynthRaw(a: string, b: string)
    requires IsDecimal(a) && IsDecimal(b)
    ensures var t := a + "," + b;
      RawPair(t) == Some((Span(0, |a|), Span(|a| + 1, |t|)))
  {
    var t := a + "," + b;
    assert forall j :: 0 <= j < |a| ==> t[j] == a[j];
    assert forall j :: 0 <= j < |b| ==> t[|a| + 1 + j] == b[j];
    PairCopied(t, a, b);
  }

  /** The two halves of the joined pair. */
  lemma SynthSlices(a: string, b: string)
    ensures var t := a + "," + b;
      t[0..|a|] == a && t[|a| + 1..|t|] == b
  {
    var t := a + "," + b;
    assert t[0..|a|] == a;
    assert t[|a| + 1..|t|] == b;
  }

  /** A capture whose text is a reads as `parseFloat(a)`. */
  lemma GroupOf(t: string, x: Span, a: string)
    requires DecimalAt(t, x) && t[x.start..x.end] == a
    ensures ParseFloat(a) == Some(Group(t, x))
  {
  }

  lemma PairCopied(t: string, a: string, b: string)
    requires IsDecimal(a) && IsDecimal(b)
    requires |t| == |a| + 1 + |b| && t[|a|] == ','
    requires forall j :: 0 <= j < |a| ==> t[j] == a[j]
    requires forall j :: 0 <= j < |b| ==> t[|a| + 1 + j] == b[j]
    ensures RawPair(t) == Some((Span(0, |a|), Span(|a| + 1, |t|)))
  {
    var x, y := Span(0, |a|), Span(|a| + 1, |t|);
    assert DecimalAt(t, x) by {
      DecimalIn(t, 0, a);
    }
    assert DecimalAt(t, y) by {
      DecimalIn(t, |a| + 1, b);
    }
    assert RawMatch(t, x, y);
    RawPairComplete(t, x, y);
  }

  /** No `/search/` in the synthesised link: it has no `r`. */
  lemma SynthNoSearch(a: string, b: string)
    requires IsDecimal(a) && IsDecimal(b)
    ensures Search(Synth(a, b)).None?
  {
    var u := Synth(a, b);
    SynthLiterals();
    DecimalChars(a);
    DecimalChars(b);
    assert 'r' !in u by {
      assert u == SynthPrefix + (a + "," + b);
      assert 'r' !in a + "," + b;
    }
    MissingCharNotContained(u, "/search/", 'r');
    if Search(u).Some? {
      ContainsAt(u, "/search/", Search(u).value.0);
    }
  }

  /** The query of the synthesised link: its `q` is the pair text and it
      has no `center`. */
  lemma SynthQuery(a: string, b: string)
    requires IsDecimal(a) && IsDecimal(b)
    ensures Lookup(ParseUrl(Synth(a, b)).query, "q") == Single(Some(a + "," + b))
    ensures Lookup(ParseUrl(Synth(a, b)).query, "center") == Missing
  {
    SynthQ(a, b);
    SynthNoCenter(a, b);
  }

  lemma SynthLayout(a: string, b: string)
    requires IsDecimal(a) && IsDecimal(b)
    ensures Synth(a, b) == "https://www.google.com/maps" + "?" + Encode([("q", a + "," + b)]) + ""
    ensures PlainPairs([("q", a + "," + b)])
  {
    var v := a + "," + b;
    SynthLiterals();
    assert Synth(a, b) == SynthPrefix + v;
    LayoutOne(SynthPrefix, "https://www.google.com/maps", "q", v);
    SynthPlain(a, b);
  }

  lemma SynthPlain(a: string, b: string)
    requires IsDecimal(a) && IsDecimal(b)
    ensures PlainPairs([("q", a + "," + b)])
  {
    DecimalPlain(a);
    DecimalPlain(b);
    PlainJoin(a, ",");
    PlainJoin(a + ",", b);
    var pairs := [("q", a + "," + b)];
    assert pairs[0] == ("q", a + "," + b);
  }

  /** A decimal needs no escaping in a query. */
  lemma DecimalPlain(a: string)
    requires IsDecimal(a)
    ensures Plain(a)
  {
    DecimalChars(a);
  }

  lemma SynthQ(a: string, b: string)
    requires IsDecimal(a) && IsDecimal(b)
    ensures Lookup(ParseUrl(Synth(a, b)).query, "q") == Single(Some(a + "," + b))
  {
    SynthLayout(a, b);
    LinkLookup("https://www.google.com/maps", [("q", a + "," + b)], "", "q");
  }

  lemma SynthNoCenter(a: string, b: string)
    requires IsDecimal(a) && IsDecimal(b)
    ensures Lookup(ParseUrl(Synth(a, b)).query, "center") == Missing
  {
    SynthLayout(a, b);
    LinkLookup("https://www.google.com/maps", [("q", a + "," + b)], "", "center");
  }

  /** The Google Maps parser accepts the synthesised link. */
  lemma SynthAccepted(a: string, b: string)
    ensures GoogleMaps.CanParse(Synth(a, b))
  {
    var base := "https://www.google.com/maps";
    SynthLiterals();
    assert Synth(a, b) == base + ("?q=" + a + "," + b);
    PrefixContains(base, "?q=" + a + "," + b, "google.com/maps", 12);
  }

  /** The link the action synthesises is accepted by the Google Maps
      parser, whose strict `q` step reads back the two numbers `parseFloat`
      reads from the centre texts. */
  lemma SynthDecodes(a: string, b: string, free: FreeText)
    requires IsDecimal(a) && IsDecimal(b)
    ensures GoogleMaps.CanParse(Synth(a, b))
    ensures ParseFloat(a).Some? && ParseFloat(b).Some?
    ensures GoogleMaps.Parse(Synth(a, b), free) == Some(Coordinates(ParseFloat(a).value, ParseFloat(b).value))
  {
    SynthAccepted(a, b);
    SynthQuery(a, b);
    SynthNoSearch(a, b);
    StrictDecodes(Synth(a, b), a, b, free);
  }

  /** A Google Maps link with no `/search/` match, no `center` and a `q`
      holding two decimals joined by a comma is decoded by the strict `q`
      step. */
  lemma StrictDecodes(u: string, a: string, b: string, free: FreeText)
    requires IsDecimal(a) && IsDecimal(b)
    requires Search(u).None?
    requires Lookup(ParseUrl(u).query, "q") == Single(Some(a + "," + b))
    requires Lookup(ParseUrl(u).query, "center") == Missing
    ensures ParseFloat(a).Some? && ParseFloat(b).Some?
    ensures GoogleMaps.Parse(u, free) == Some(Coordinates(ParseFloat(a).value, ParseFloat(b).value))
  {
    var v := a + "," + b;
    SynthPair(a, b);
    var x, y := Span(0, |a|), Span(|a| + 1, |v|);
    GoogleMaps.StrictWins(u, free, v, x, y);
  }

  // ---------------------------------------------------------------------
  // The action

  /** `expandUrl`. `resolved` is the URL the `HEAD` request ends at and
      `page` the body the `GET` request returns; `None` stands for a
      request that throws, which the action's `catch` turns into a
      failure. */
  method ExpandUrl(url: string, resolved: Option<string>, page: Option<string>)
    returns (result: ExpansionResult, requests: seq<Request>)
    ensures url == "" ==> result == Failed(UrlRequired) && requests == []
    ensures url != "" ==> |requests| >= 1 && requests[0] == Head(Target(url))
    ensures result.Expanded? ==> result.originalUrl == Target(url)
    ensures result.Failed? ==> result.error == UrlRequired || result.error == ExpandFailed
    ensures url != "" && resolved.None? ==> result == Failed(ExpandFailed) && |requests| == 1
    ensures url != "" && resolved.Some? && HasCoordinates(resolved.value) ==>
      result == Expanded(resolved.value, Target(url)) && |requests| == 1
    ensures url != "" && resolved.Some? && !HasCoordinates(resolved.value) ==>
      requests == [Head(Target(url)), Get(resolved.value)]
      && (page.None? ==> result == Failed(ExpandFailed))
      && (page.Some? ==>
            match OgImage(page.value)
            case Some(og) =>
              (match Center(og)
               case Some((lat, lng)) => result == Expanded(Synth(lat, lng), Target(url))
               case None => result == Expanded(resolved.value, Target(url)))
            case None => result == Expanded(resolved.value, Target(url)))
  {
    if url == "" {
      return Failed(UrlRequired), [];
    }
    var target := url;
    if !StartsWith(target, "http") {
      target := "https://" + target;
    }
    requests := [Head(target)];
    if resolved.None? {
      return Failed(ExpandFailed), requests;
    }
    var expanded := resolved.value;
    if HasCoordinates(expanded) {
      return Expanded(expanded, target), requests;
    }
    requests := requests + [Get(expanded)];
    if page.None? {
      return Failed(ExpandFailed), requests;
    }
    var og := OgImage(page.value);
    if og.Some? {
      var center := Center(og.value);
      if center.Some? {
        var (lat, lng) := center.value;
        return Expanded(Synth(lat, lng), target), requests;
      }
    }
    return Expanded(expanded, target), requests;
  }

  /** Whatever the action synthesises from a page, the Google Maps parser
      decodes; and a second expansion of it keeps it as it is. */
  lemma SynthesisedDecodes(og: string, free: FreeText)
    requires Center(og).Some?
    ensures var (lat, lng) := Center(og).value;
      ParseFloat(lat).Some? && ParseFloat(lng).Some?
      && GoogleMaps.CanParse(Synth(lat, lng))
      && GoogleMaps.Parse(Synth(lat, lng), free) == Some(Coordinates(ParseFloat(lat).value, ParseFloat(lng).value))
      && HasCoordinates(Synth(lat, lng))
  {
    var (lat, lng) := Center(og).value;
    SynthDecodes(lat, lng, free);
    SynthHasCoordinates(lat, lng);
  }
}
