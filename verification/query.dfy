/**
  The query-string reader the parsers call as `queryString.parseUrl(url)`.

  `ParseUrl` returns the text before the first `?` (of the text before
  the first `#`) as `url`, and the parsed query. The query is the part after
  the first `?`, cut at the first `#`. It is trimmed, one leading `?`, `#` or
  `&` is dropped, and it is split at `&`; empty pieces are skipped. In each
  piece every `+` becomes a space, the piece is split at its first `=`, and
  key and value are percent-decoded; a piece without `=` has the value
  `null`. A key seen again turns its value into an array of all its values
  in order.
 */
module QueryString {
  import opened Options
  import opened Strings

  /** A looked-up query value: `undefined`, a single value (`null` when the
      piece had no `=`), or the array a repeated key yields. */
  datatype QueryValue =
    | Missing
    | Single(value: Option<string>)
    | Many(values: seq<Option<string>>)

  type Query = map<string, QueryValue>

  datatype ParsedUrl = ParsedUrl(url: string, query: Query)

  /** `query[key]`. */
  function Lookup(q: Query, key: string): QueryValue {
    if key in q then q[key] else Missing
  }

  /** Whether `if (query[key])` takes its branch: a non-empty string or an
      array. */
  predicate Truthy(v: QueryValue) {
    match v
    case Missing => false
    case Single(None) => false
    case Single(Some(t)) => t != ""
    case Many(_) => true
  }

  /** `String(value)`: what `parseFloat` and `RegExp.prototype.test` read
      when handed a query value. An array prints its items joined by `,`,
      with `null` items printed as nothing. */
  function JsText(v: QueryValue): string {
    match v
    case Missing => "undefined"
    case Single(None) => "null"
    case Single(Some(t)) => t
    case Many(items) => JoinItems(items)
  }

  function ItemText(o: Option<string>): string {
    match o
    case None => ""
    case Some(t) => t
  }

  function JoinItems(items: seq<Option<string>>): string {
    if |items| == 0 then ""
    else if |items| == 1 then ItemText(items[0])
    else ItemText(items[0]) + "," + JoinItems(items[1..])
  }

  predicate IsHex(c: char) {
    '0' <= c <= '9' || 'a' <= c <= 'f' || 'A' <= c <= 'F'
  }

  function HexValue(c: char): nat
    requires IsHex(c)
  {
    if '0' <= c <= '9' then c as nat - '0' as nat
    else if 'a' <= c <= 'f' then c as nat - 'a' as nat + 10
    else c as nat - 'A' as nat + 10
  }

  /** Percent-decoding of ASCII escapes, left to right: `%XX` with XX below
      80 (hexadecimal) becomes that character; every other character,
      including a `%` that starts no such escape, is kept. */
  function Decode(s: string): (r: string)
    decreases |s|
    ensures '%' !in s ==> r == s
  {
    if |s| >= 3 && s[0] == '%' && IsHex(s[1]) && IsHex(s[2]) && HexValue(s[1]) < 8 then
      [(HexValue(s[1]) * 16 + HexValue(s[2])) as char] + Decode(s[3..])
    else if s == [] then []
    else
      assert s == [s[0]] + s[1..];
      [s[0]] + Decode(s[1..])
  }

  /** An encoded comma between two texts without `%` decodes to a comma. */
  lemma DecodeComma(a: string, b: string)
    requires '%' !in a
    ensures Decode(a + "%2C" + b) == a + "," + Decode(b)
  {
    DecodePlainPrefix(a, "%2C" + b);
    assert ("%2C" + b)[3..] == b;
    assert a + "%2C" + b == a + ("%2C" + b);
  }

  /** A prefix without `%` decodes to itself. */
  lemma {:induction false} DecodePlainPrefix(a: string, b: string)
    requires '%' !in a
    ensures Decode(a + b) == a + Decode(b)
    decreases |a|
  {
    if a != [] {
      assert a[0] != '%' && '%' !in a[1..];
      DecodePlainPrefix(a[1..], b);
      assert (a + b)[0] == a[0];
      assert (a + b)[1..] == a[1..] + b;
      assert a == [a[0]] + a[1..];
    } else {
      assert a + b == b;
    }
  }

  /** Every `+` of a piece turned into a space. */
  function PlusToSpace(s: string): (r: string)
    ensures |r| == |s| && '+' !in r
    ensures '+' !in s ==> r == s
  {
    seq(|s|, i requires 0 <= i < |s| => if s[i] == '+' then ' ' else s[i])
  }

  /** The key and value of one `&`-separated piece. */
  function Entry(piece: string): (string, Option<string>) {
    var t := PlusToSpace(piece);
    if '=' in t then
      var i := CharIndex(t, '=');
      (Decode(t[..i]), Some(Decode(t[i + 1..])))
    else (Decode(t), None)
  }

  /** Record one more value of a key: the first makes a single value, and
      each later one extends the array of values. */
  function Add(q: Query, key: string, value: Option<string>): Query {
    if key !in q then q[key := Single(value)]
    else
      match q[key]
      case Single(first) => q[key := Many([first, value])]
      case Many(values) => q[key := Many(values + [value])]
      case Missing => q[key := Single(value)]
  }

  /** Fold the pieces into the query, left to right, skipping empty ones. */
  function Collect(pieces: seq<string>, q: Query): Query
    decreases |pieces|
  {
    if pieces == [] then q
    else if pieces[0] == "" then Collect(pieces[1..], q)
    else
      var entry := Entry(pieces[0]);
      Collect(pieces[1..], Add(q, entry.0, entry.1))
  }

  /** One leading `?`, `#` or `&` removed. */
  function StripLead(s: string): string {
    if s != [] && (s[0] == '?' || s[0] == '#' || s[0] == '&') then s[1..] else s
  }

  /** `queryString.parse`. */
  function ParseQuery(text: string): Query {
    var t := StripLead(Trim(text));
    if t == "" then map[] else Collect(Split(t, '&'), map[])
  }

  /** The query part of a URL: after the first `?` of the text before the
      first `#`, or nothing when there is no `?`. */
  function Extract(s: string): string {
    var t := Before(s, '#');
    if '?' in t then t[CharIndex(t, '?') + 1..] else ""
  }

  /** `queryString.parseUrl`. */
  function ParseUrl(s: string): (r: ParsedUrl)
    ensures '#' !in r.url && '?' !in r.url
  {
    ParsedUrl(Before(Before(s, '#'), '?'), ParseQuery(Extract(s)))
  }

  /** A character a link writes into a query key or value as it is. */
  predicate PlainChar(c: char) {
    c != '&' && c != '=' && c != '%' && c != '+' && c != '#' && c != '?' && !IsSpace(c)
  }

  predicate Plain(t: string) {
    forall i :: 0 <= i < |t| ==> PlainChar(t[i])
  }

  lemma PlainJoin(a: string, b: string)
    requires Plain(a) && Plain(b)
    ensures Plain(a + b)
  {
    assert forall i :: |a| <= i < |a + b| ==> (a + b)[i] == b[i - |a|];
  }

  /** Keys and values a link can write unescaped, with every key present
      once and non-empty. */
  predicate PlainPairs(pairs: seq<(string, string)>) {
    (forall i :: 0 <= i < |pairs| ==> pairs[i].0 != [] && Plain(pairs[i].0) && Plain(pairs[i].1))
    && forall i, j :: 0 <= i < j < |pairs| ==> pairs[i].0 != pairs[j].0
  }

  /** The `key=value` pieces of a query a link writes. */
  function Pieces(pairs: seq<(string, string)>): (r: seq<string>)
    ensures |r| == |pairs|
  {
    if pairs == [] then [] else [pairs[0].0 + "=" + pairs[0].1] + Pieces(pairs[1..])
  }

  /** The query text a link writes: its pieces joined by `&`. */
  function Encode(pairs: seq<(string, string)>): string
    requires |pairs| >= 1
  {
    Join(Pieces(pairs), '&')
  }

  /** The value the pairs give a key. */
  function Find(pairs: seq<(string, string)>, key: string): Option<string> {
    if pairs == [] then None
    else if pairs[0].0 == key then Some(pairs[0].1)
    else Find(pairs[1..], key)
  }

  lemma {:induction false} FindAbsent(pairs: seq<(string, string)>, key: string)
    requires forall i :: 0 <= i < |pairs| ==> pairs[i].0 != key
    ensures Find(pairs, key) == None
  {
    if pairs != [] {
      FindAbsent(pairs[1..], key);
    }
  }

  /** A key found at index i, and at no earlier index, gives the value at i. */
  lemma {:induction false} FindAt(pairs: seq<(string, string)>, i: nat)
    requires i < |pairs|
    requires forall j :: 0 <= j < i ==> pairs[j].0 != pairs[i].0
    ensures Find(pairs, pairs[i].0) == Some(pairs[i].1)
  {
    if i > 0 {
      FindAt(pairs[1..], i - 1);
    }
  }

  /** The pairs after the first are plain and never repeat its key. */
  lemma PlainPairsTail(pairs: seq<(string, string)>)
    requires PlainPairs(pairs) && pairs != []
    ensures PlainPairs(pairs[1..])
    ensures forall i :: 0 <= i < |pairs| - 1 ==> pairs[1..][i].0 != pairs[0].0
  {
    forall i, j | 0 <= i < j < |pairs| - 1
      ensures pairs[1..][i].0 != pairs[1..][j].0
    {
      assert pairs[1..][i] == pairs[i + 1] && pairs[1..][j] == pairs[j + 1];
    }
    forall i | 0 <= i < |pairs| - 1
      ensures pairs[1..][i].0 != pairs[0].0
    {
      assert pairs[1..][i] == pairs[i + 1];
    }
  }

  /** A written piece reads back as its key and value. */
  lemma EntryPlain(k: string, v: string)
    requires Plain(k) && Plain(v)
    ensures Entry(k + "=" + v) == (k, Some(v))
  {
    var t := k + "=" + v;
    assert '+' !in t by {
      assert forall i :: 0 <= i < |t| ==> t[i] != '+';
    }
    assert '=' !in k by {
      assert forall i :: 0 <= i < |k| ==> k[i] != '=';
    }
    assert '%' !in k && '%' !in v by {
      assert forall i :: 0 <= i < |k| ==> k[i] != '%';
      assert forall i :: 0 <= i < |v| ==> v[i] != '%';
    }
    CharIndexCons(k, '=', v);
    assert t[..|k|] == k && t[|k| + 1..] == v;
  }

  /** Folding written pieces into a query that holds none of their keys
      gives each key its value. */
  lemma {:induction false} CollectPairs(pairs: seq<(string, string)>, q: Query, key: string)
    requires PlainPairs(pairs)
    requires forall i :: 0 <= i < |pairs| ==> pairs[i].0 !in q
    ensures Lookup(Collect(Pieces(pairs), q), key)
      == match Find(pairs, key) case Some(v) => Single(Some(v)) case None => Lookup(q, key)
  {
    if pairs != [] {
      var (k, v) := pairs[0];
      EntryPlain(k, v);
      var q' := q[k := Single(Some(v))];
      assert Pieces(pairs)[1..] == Pieces(pairs[1..]);
      PlainPairsTail(pairs);
      CollectPairs(pairs[1..], q', key);
      if key == k {
        FindAbsent(pairs[1..], key);
      }
    }
  }

  /** Free of white space and of the `#` and `?` that end a URL's parts. */
  predicate Bare(t: string) {
    forall i :: 0 <= i < |t| ==> !IsSpace(t[i]) && t[i] != '#' && t[i] != '?'
  }

  /** Each written piece is `key=value`, free of `&` and white space. */
  lemma PiecesPlain(pairs: seq<(string, string)>)
    requires PlainPairs(pairs)
    ensures forall k :: 0 <= k < |pairs| ==> Pieces(pairs)[k] == pairs[k].0 + "=" + pairs[k].1
    ensures forall k :: 0 <= k < |pairs| ==> '&' !in Pieces(pairs)[k] && Bare(Pieces(pairs)[k])
  {
    PiecesText(pairs);
    forall k | 0 <= k < |pairs|
      ensures '&' !in Pieces(pairs)[k] && Bare(Pieces(pairs)[k])
    {
      PieceBare(pairs[k].0, pairs[k].1);
    }
  }

  /** Piece k of the query is pair k written as `key=value`. */
  lemma {:induction false} PiecesText(pairs: seq<(string, string)>)
    ensures forall k :: 0 <= k < |pairs| ==> Pieces(pairs)[k] == pairs[k].0 + "=" + pairs[k].1
  {
    if pairs != [] {
      PiecesText(pairs[1..]);
      forall k | 0 < k < |pairs|
        ensures Pieces(pairs)[k] == pairs[k].0 + "=" + pairs[k].1
      {
        assert Pieces(pairs)[k] == Pieces(pairs[1..])[k - 1];
        assert pairs[1..][k - 1] == pairs[k];
      }
    }
  }

  /** A plain key and value write a piece free of `&` and white space. */
  lemma PieceBare(key: string, v: string)
    requires Plain(key) && Plain(v)
    ensures '&' !in key + "=" + v && Bare(key + "=" + v)
  {
    var t := key + "=" + v;
    assert forall i :: 0 <= i < |t| ==> t[i] != '&' && !IsSpace(t[i]) && t[i] != '#' && t[i] != '?';
  }

  /** Joining bare pieces by a bare separator gives a bare text. */
  lemma {:induction false} JoinBare(parts: seq<string>, d: char)
    requires |parts| >= 1 && !IsSpace(d) && d != '#' && d != '?'
    requires forall k :: 0 <= k < |parts| ==> Bare(parts[k])
    ensures Bare(Join(parts, d))
    ensures parts[0] != [] ==> Join(parts, d)[0] == parts[0][0]
  {
    if |parts| > 1 {
      JoinBare(parts[1..], d);
      var t := parts[0] + [d] + Join(parts[1..], d);
      assert forall i :: 0 <= i < |t| ==> !IsSpace(t[i]) && t[i] != '#' && t[i] != '?' by {
        forall i | 0 <= i < |t|
          ensures !IsSpace(t[i]) && t[i] != '#' && t[i] != '?'
        {
          if i > |parts[0]| {
            assert t[i] == Join(parts[1..], d)[i - |parts[0]| - 1];
          }
        }
      }
    }
  }

  /** A written query reads back as its pairs. */
  lemma ParseEncoded(pairs: seq<(string, string)>, key: string)
    requires |pairs| >= 1 && PlainPairs(pairs)
    ensures Lookup(ParseQuery(Encode(pairs)), key)
      == match Find(pairs, key) case Some(v) => Single(Some(v)) case None => Missing
  {
    var e := Encode(pairs);
    PiecesPlain(pairs);
    JoinBare(Pieces(pairs), '&');
    assert e[0] == pairs[0].0[0] by {
      assert Pieces(pairs)[0][0] == pairs[0].0[0];
    }
    TrimUnchanged(e);
    assert StripLead(Trim(e)) == e;
    SplitJoin(Pieces(pairs), '&');
    CollectPairs(pairs, map[], key);
  }

  /** A link `base?query`, optionally followed by a `#` fragment, splits
      into its base and the query it writes. */
  lemma ParseUrlEncoded(base: string, pairs: seq<(string, string)>, tail: string)
    requires '#' !in base && '?' !in base
    requires |pairs| >= 1 && PlainPairs(pairs)
    requires tail == [] || tail[0] == '#'
    ensures ParseUrl(base + "?" + Encode(pairs) + tail) == ParsedUrl(base, ParseQuery(Encode(pairs)))
  {
    var e := Encode(pairs);
    PiecesPlain(pairs);
    JoinBare(Pieces(pairs), '&');
    assert '#' !in e && '?' !in e;
    var t := base + "?" + e;
    assert '#' !in t;
    if tail == [] {
      assert t + tail == t;
    } else {
      assert t + tail == t + ['#'] + tail[1..];
      BeforeCons(t, '#', tail[1..]);
    }
    assert Before(t + tail, '#') == t;
    assert t == base + ['?'] + e;
    CharIndexCons(base, '?', e);
    BeforeCons(base, '?', e);
    assert t[|base| + 1..] == e;
  }

  /** A key of a written link reads back as the value the link wrote for
      it, and a key the link did not write is missing. */
  lemma LinkLookup(base: string, pairs: seq<(string, string)>, tail: string, key: string)
    requires '#' !in base && '?' !in base
    requires |pairs| >= 1 && PlainPairs(pairs)
    requires tail == [] || tail[0] == '#'
    ensures Lookup(ParseUrl(base + "?" + Encode(pairs) + tail).query, key)
      == match Find(pairs, key) case Some(v) => Single(Some(v)) case None => Missing
  {
    ParseUrlEncoded(base, pairs, tail);
    ParseEncoded(pairs, key);
  }

  /** The text of a two-pair query. */
  lemma EncodeTwo(k1: string, v1: string, k2: string, v2: string)
    ensures Encode([(k1, v1), (k2, v2)]) == k1 + "=" + v1 + "&" + k2 + "=" + v2
  {
    var pairs := [(k1, v1), (k2, v2)];
    var ps := [k1 + "=" + v1, k2 + "=" + v2];
    assert Pieces(pairs[1..]) == [k2 + "=" + v2] by {
      assert pairs[1..] == [(k2, v2)];
      assert Pieces(pairs[1..][1..]) == [];
    }
    assert Pieces(pairs) == ps;
    assert Join(ps[1..], '&') == k2 + "=" + v2;
  }

  /** The text of a three-pair query. */
  lemma EncodeThree(k1: string, v1: string, k2: string, v2: string, k3: string, v3: string)
    ensures Encode([(k1, v1), (k2, v2), (k3, v3)]) == k1 + "=" + v1 + "&" + k2 + "=" + v2 + "&" + k3 + "=" + v3
  {
    var pairs := [(k1, v1), (k2, v2), (k3, v3)];
    var ps := [k1 + "=" + v1, k2 + "=" + v2, k3 + "=" + v3];
    assert Pieces(pairs[1..]) == ps[1..] by {
      assert pairs[1..] == [(k2, v2), (k3, v3)];
      EncodeTwo(k2, v2, k3, v3);
      assert Pieces([(k2, v2), (k3, v3)]) == [k2 + "=" + v2, k3 + "=" + v3] by {
        assert [(k2, v2), (k3, v3)][1..] == [(k3, v3)];
        assert Pieces([(k3, v3)][1..]) == [];
      }
    }
    assert Pieces(pairs) == ps;
    assert Join(ps[1..], '&') == k2 + "=" + v2 + "&" + k3 + "=" + v3 by {
      assert ps[1..][1..] == [k3 + "=" + v3];
    }
  }

  /** A link laid out as `<base>?<k>=<v>`. */
  lemma LayoutOne(p: string, base: string, k: string, v: string)
    requires p == base + "?" + k + "="
    ensures p + v == base + "?" + Encode([(k, v)]) + ""
    ensures p + v == base + ("?" + Encode([(k, v)]) + "")
  {
    var pairs := [(k, v)];
    assert Pieces(pairs) == [k + "=" + v] by {
      assert Pieces(pairs[1..]) == [];
    }
  }

  /** Two pairs with distinct non-empty keys and nothing to escape. */
  lemma PlainTwo(k1: string, v1: string, k2: string, v2: string)
    requires k1 != [] && k2 != [] && k1 != k2
    requires Plain(k1) && Plain(v1) && Plain(k2) && Plain(v2)
    ensures PlainPairs([(k1, v1), (k2, v2)])
  {
    var pairs := [(k1, v1), (k2, v2)];
    assert pairs[0] == (k1, v1) && pairs[1] == (k2, v2);
  }

  /** Three pairs with distinct non-empty keys and nothing to escape. */
  lemma PlainThree(k1: string, v1: string, k2: string, v2: string, k3: string, v3: string)
    requires k1 != [] && k2 != [] && k3 != [] && k1 != k2 && k1 != k3 && k2 != k3
    requires Plain(k1) && Plain(v1) && Plain(k2) && Plain(v2) && Plain(k3) && Plain(v3)
    ensures PlainPairs([(k1, v1), (k2, v2), (k3, v3)])
  {
    var pairs := [(k1, v1), (k2, v2), (k3, v3)];
    assert pairs[0] == (k1, v1) && pairs[1] == (k2, v2) && pairs[2] == (k3, v3);
  }

  /** A link laid out as `<base>?<k1>=<v1>&<k2>=<v2><tail>`. */
  lemma LayoutTwo(p: string, m: string, base: string, k1: string, v1: string, k2: string, v2: string, tail: string)
    requires p == base + "?" + k1 + "=" && m == "&" + k2 + "="
    ensures p + v1 + m + v2 + tail == base + "?" + Encode([(k1, v1), (k2, v2)]) + tail
    ensures p + v1 + m + v2 + tail == base + ("?" + Encode([(k1, v1), (k2, v2)]) + tail)
  {
    EncodeTwo(k1, v1, k2, v2);
  }

  /** A link laid out as `<base>?<k1>=<v1>&<k2>=<v2>&<k3>=<v3>`. */
  lemma LayoutThree(p: string, m: string, n: string, base: string,
                    k1: string, v1: string, k2: string, v2: string, k3: string, v3: string)
    requires p == base + "?" + k1 + "=" && m == "&" + k2 + "=" && n == "&" + k3 + "="
    ensures p + v1 + m + v2 + n + v3 == base + "?" + Encode([(k1, v1), (k2, v2), (k3, v3)]) + ""
    ensures p + v1 + m + v2 + n + v3 == base + ("?" + Encode([(k1, v1), (k2, v2), (k3, v3)]) + "")
  {
    EncodeThree(k1, v1, k2, v2, k3, v3);
  }
}
