/**
  The ECMAScript string operations the link parsers are built from: white space
  as `trim` and `\s` see it, ASCII lower-casing, substring search (`includes`,
  `startsWith`, `indexOf`), `split` on a one-character separator and
  `replace` of the first occurrence of a literal.
 */
module Strings {
  import opened Options

  /** The WhiteSpace and LineTerminator code points of ECMAScript: what
      `String.prototype.trim` removes, what `\s` matches and what
      `parseFloat` skips. */
  predicate IsSpace(c: char) {
    if c <= ' ' then c == ' ' || '\t' <= c <= '\r'
    else '\U{A0}' <= c && IsWideSpace(c)
  }

  /** The white-space code points from U+00A0 up. */
  predicate IsWideSpace(c: char) {
    c == '\U{A0}' || c == '\U{1680}' || ('\U{2000}' <= c <= '\U{200A}')
    || c == '\U{2028}' || c == '\U{2029}' || c == '\U{202F}' || c == '\U{205F}'
    || c == '\U{3000}' || c == '\U{FEFF}'
  }

  predicate AllSpace(s: string) {
    forall i :: 0 <= i < |s| ==> IsSpace(s[i])
  }

  /** Length of the white-space run that starts at index i. */
  function SpaceRun(s: string, i: nat): (n: nat)
    requires i <= |s|
    decreases |s| - i
    ensures i + n <= |s| && forall j :: i <= j < i + n ==> IsSpace(s[j])
    ensures i + n == |s| || !IsSpace(s[i + n])
  {
    if i == |s| || !IsSpace(s[i]) then 0 else 1 + SpaceRun(s, i + 1)
  }

  /** A white-space run followed by something else ends where the run ends. */
  lemma {:induction false} SpaceRunAt(s: string, i: nat, e: nat)
    requires i <= e <= |s| && forall j :: i <= j < e ==> IsSpace(s[j])
    requires e == |s| || !IsSpace(s[e])
    ensures SpaceRun(s, i) == e - i
    decreases e - i
  {
    if i < e {
      SpaceRunAt(s, i + 1, e);
    }
  }

  /** Length of the white-space run that ends the string. */
  function TrailingSpace(s: string): (n: nat)
    ensures n <= |s| && AllSpace(s[|s| - n..])
    ensures n == |s| || !IsSpace(s[|s| - n - 1])
  {
    if s == [] || !IsSpace(s[|s| - 1]) then 0
    else
      var n := TrailingSpace(s[..|s| - 1]);
      TrailingStep(s, n);
      n + 1
  }

  /** A white-space run ending before the last character, with that
      character white space too, is one longer. */
  lemma TrailingStep(s: string, n: nat)
    requires s != [] && n <= |s| - 1 && IsSpace(s[|s| - 1])
    requires AllSpace(s[..|s| - 1][|s| - 1 - n..])
    ensures AllSpace(s[|s| - (n + 1)..])
  {
    assert s[|s| - (n + 1)..] == s[..|s| - 1][|s| - 1 - n..] + [s[|s| - 1]];
  }

  function TrimStart(s: string): string {
    s[SpaceRun(s, 0)..]
  }

  /** `String.prototype.trim`. */
  function Trim(s: string): string {
    var t := TrimStart(s);
    t[..|t| - TrailingSpace(t)]
  }

  /** A string with no white space at either end is its own trim. */
  lemma TrimUnchanged(s: string)
    requires s == [] || (!IsSpace(s[0]) && !IsSpace(s[|s| - 1]))
    ensures Trim(s) == s
  {
  }

  /** Trimming leaves nothing exactly when the string is all white space. */
  lemma {:induction false} TrimEmptyIff(s: string)
    ensures Trim(s) == [] <==> AllSpace(s)
  {
    var k := SpaceRun(s, 0);
    if !AllSpace(s) {
      var i :| 0 <= i < |s| && !IsSpace(s[i]);
      var t := TrimStart(s);
      assert t[0] == s[k];
    }
  }

  /** ASCII lower-casing, as `toLowerCase` does on ASCII letters. */
  function LowerChar(c: char): char {
    if 'A' <= c <= 'Z' then (c as int + 32) as char else c
  }

  function ToLower(s: string): string {
    seq(|s|, i requires 0 <= i < |s| => LowerChar(s[i]))
  }

  /** Lower-casing keeps every occurrence in place. */
  lemma LowerOccurs(s: string, pat: string, i: nat)
    requires OccursAt(s, pat, i)
    ensures OccursAt(ToLower(s), ToLower(pat), i)
  {
    forall j | 0 <= j < |pat|
      ensures ToLower(s)[i + j] == ToLower(pat)[j]
    {
      assert s[i + j] == s[i..i + |pat|][j];
    }
  }

  predicate OccursAt(s: string, pat: string, i: nat) {
    i + |pat| <= |s| && s[i..i + |pat|] == pat
  }

  /** `s.indexOf(pat, from)`: the leftmost occurrence at or after `from`. */
  function IndexFrom(s: string, pat: string, from: nat): (r: Option<nat>)
    decreases |s| - from
    ensures r.Some? ==> from <= r.value && OccursAt(s, pat, r.value)
    ensures r.Some? ==> forall i :: from <= i < r.value ==> !OccursAt(s, pat, i)
    ensures r.None? ==> forall i :: from <= i ==> !OccursAt(s, pat, i)
  {
    if from + |pat| > |s| then None
    else if s[from..from + |pat|] == pat then Some(from)
    else IndexFrom(s, pat, from + 1)
  }

  /** Reading a text laid down at index i as two parts. */
  lemma SplitAt(s: string, i: nat, a: string, b: string)
    requires i <= |s| && s[i..] == a + b
    ensures i + |a| <= |s| && s[i..i + |a|] == a && s[i + |a|..] == b
  {
    assert s[i..i + |a|] == (a + b)[..|a|];
    assert s[i + |a|..] == (a + b)[|a|..];
  }

  /** A text is its part before index k, the character at k, and the rest. */
  lemma CutAt(t: string, k: nat)
    requires k < |t|
    ensures t == t[..k] + [t[k]] + t[k + 1..]
  {
  }

  /** A slice is the concatenation of its two halves. */
  lemma SliceJoin(s: string, i: nat, j: nat, k: nat)
    requires i <= j <= k <= |s|
    ensures s[i..k] == s[i..j] + s[j..k]
  {
  }

  /** `s.includes(pat)`. */
  predicate Contains(s: string, pat: string) {
    IndexFrom(s, pat, 0).Some?
  }

  /** `s.startsWith(pat)`. */
  predicate StartsWith(s: string, pat: string) {
    |pat| <= |s| && s[..|pat|] == pat
  }

  lemma ContainsIff(s: string, pat: string)
    ensures Contains(s, pat) <==> exists i :: OccursAt(s, pat, i)
  {
    if !Contains(s, pat) {
      assert forall i :: 0 <= i ==> !OccursAt(s, pat, i);
    }
  }

  lemma ContainsAt(s: string, pat: string, i: nat)
    requires OccursAt(s, pat, i)
    ensures Contains(s, pat)
  {
    ContainsIff(s, pat);
  }

  /** A lower-case marker in the leading part of a text is found by a
      case-insensitive `includes` on the whole text. */
  lemma PrefixContains(prefix: string, rest: string, pat: string, i: nat)
    requires OccursAt(prefix, pat, i) && ToLower(pat) == pat
    ensures Contains(ToLower(prefix + rest), pat)
  {
    var s := prefix + rest;
    assert s[i..i + |pat|] == prefix[i..i + |pat|];
    LowerOccurs(s, pat, i);
    ContainsAt(ToLower(s), pat, i);
  }

  /** An occurrence of an occurrence is an occurrence: a text containing
      `maps.app.goo.gl` contains `goo.gl`. */
  lemma {:induction false} ContainsTransitive(s: string, mid: string, pat: string)
    requires Contains(s, mid) && Contains(mid, pat)
    ensures Contains(s, pat)
  {
    var i := IndexFrom(s, mid, 0).value;
    var j := IndexFrom(mid, pat, 0).value;
    OccursWithin(s, mid, pat, i, j);
    ContainsAt(s, pat, i + j);
  }

  /** An occurrence at j inside an occurrence at i is an occurrence at i + j. */
  lemma OccursWithin(s: string, mid: string, pat: string, i: nat, j: nat)
    requires OccursAt(s, mid, i) && OccursAt(mid, pat, j)
    ensures OccursAt(s, pat, i + j)
  {
    forall k | 0 <= k < |pat|
      ensures s[i + j..i + j + |pat|][k] == pat[k]
    {
      assert pat[k] == mid[j + k] == s[i..i + |mid|][j + k];
    }
  }

  /** A pattern whose i-th character differs from the text's at p + i does
      not occur at p. */
  lemma MismatchAt(s: string, pat: string, p: nat, i: nat)
    requires i < |pat| && p + i < |s| && s[p + i] != pat[i]
    ensures !OccursAt(s, pat, p)
  {
    assert p + |pat| <= |s| ==> s[p..p + |pat|][i] == s[p + i];
  }

  /** A pattern holding a character the text lacks does not occur in it. */
  lemma {:induction false} MissingCharNotContained(s: string, pat: string, c: char)
    requires c in pat && c !in s
    ensures !Contains(s, pat)
  {
    var k :| 0 <= k < |pat| && pat[k] == c;
    assert forall i: nat :: OccursAt(s, pat, i) ==> s[i + k] == pat[k];
  }

  /** The index of the first occurrence of character d. */
  function CharIndex(s: string, d: char): (i: nat)
    requires d in s
    ensures i < |s| && s[i] == d && d !in s[..i]
  {
    if s[0] == d then 0 else 1 + CharIndex(s[1..], d)
  }

  /** `s.split(d)` for a one-character separator d. */
  function Split(s: string, d: char): (r: seq<string>)
    decreases |s|
    ensures |r| >= 1
    ensures forall k :: 0 <= k < |r| ==> d !in r[k]
  {
    if d !in s then [s]
    else
      var i := CharIndex(s, d);
      [s[..i]] + Split(s[i + 1..], d)
  }

  /** `parts.join(d)`, the inverse of `Split`. */
  function Join(parts: seq<string>, d: char): string
    requires |parts| >= 1
  {
    if |parts| == 1 then parts[0] else parts[0] + [d] + Join(parts[1..], d)
  }

  /** Joining the pieces of a split gives the text back. */
  lemma {:induction false} JoinSplit(s: string, d: char)
    decreases |s|
    ensures Join(Split(s, d), d) == s
  {
    if d in s {
      var i := CharIndex(s, d);
      var a, b := s[..i], s[i + 1..];
      var r := Split(b, d);
      assert Split(s, d) == [a] + r;
      JoinSplit(b, d);
      assert ([a] + r)[0] == a && ([a] + r)[1..] == r;
      assert Join([a] + r, d) == a + [d] + Join(r, d);
      assert s == a + [d] + b;
    } else {
      assert Split(s, d) == [s];
    }
  }

  /** Splitting a text that opens with a separator-free piece. */
  lemma SplitCons(a: string, d: char, b: string)
    requires d !in a
    ensures Split(a + [d] + b, d) == [a] + Split(b, d)
  {
    var s := a + [d] + b;
    assert s[|a|] == d;
    var i := CharIndex(s, d);
    assert s[..i] == a && s[i + 1..] == b;
  }

  /** Splitting a text that opens with two separator-free pieces. */
  lemma SplitCons2(x: string, y: string, d: char, b: string)
    requires d !in x && d !in y
    ensures Split(x + [d] + (y + [d] + b), d) == [x, y] + Split(b, d)
  {
    SplitCons(x, d, y + [d] + b);
    SplitCons(y, d, b);
  }

  /** Splitting undoes joining when no piece holds the separator. */
  lemma {:induction false} SplitJoin(parts: seq<string>, d: char)
    requires |parts| >= 1
    requires forall k :: 0 <= k < |parts| ==> d !in parts[k]
    ensures Split(Join(parts, d), d) == parts
  {
    if |parts| > 1 {
      var rest := parts[1..];
      assert forall k :: 0 <= k < |rest| ==> rest[k] == parts[k + 1];
      SplitJoin(rest, d);
      assert d !in parts[0];
      assert Join(parts, d) == parts[0] + [d] + Join(rest, d);
      SplitCons(parts[0], d, Join(rest, d));
      assert [parts[0]] + rest == parts;
    } else {
      assert d !in parts[0];
    }
  }

  /** The text before the first d (all of s when d is absent): `s.split(d)[0]`. */
  function Before(s: string, d: char): (r: string)
    ensures d !in r && StartsWith(s, r)
    ensures d !in s ==> r == s
  {
    if d in s then s[..CharIndex(s, d)] else s
  }

  /** The first separator after a separator-free prefix is the one that
      ends the prefix. */
  lemma {:induction false} CharIndexCons(a: string, d: char, b: string)
    requires d !in a
    ensures d in a + [d] + b && CharIndex(a + [d] + b, d) == |a|
    decreases |a|
  {
    var s := a + [d] + b;
    assert s[|a|] == d;
    if a != [] {
      assert s[0] == a[0] && s[1..] == a[1..] + [d] + b;
      CharIndexCons(a[1..], d, b);
    }
  }

  /** The text before the first d of a text that begins with a d-free part
      followed by d. */
  lemma BeforeCons(a: string, d: char, b: string)
    requires d !in a
    ensures Before(a + [d] + b, d) == a
  {
    CharIndexCons(a, d, b);
    assert (a + [d] + b)[..|a|] == a;
  }

  /** `s.replace(pat, '')`: the first occurrence of pat removed. */
  function RemoveFirst(s: string, pat: string): (r: string)
    ensures Contains(s, pat) ==> |r| + |pat| == |s|
    ensures !Contains(s, pat) ==> r == s
  {
    match IndexFrom(s, pat, 0)
    case Some(i) => s[..i] + s[i + |pat|..]
    case None => s
  }

  /** Cutting at d after a d-free prefix keeps the prefix. */
  lemma BeforeAppend(a: string, d: char, b: string)
    requires d !in a
    ensures Before(a + b, d) == a + Before(b, d)
  {
    if d in b {
      var i := CharIndex(b, d);
      assert b == b[..i] + [d] + b[i + 1..];
      assert a + b == (a + b[..i]) + [d] + b[i + 1..];
      BeforeCons(a + b[..i], d, b[i + 1..]);
    } else {
      assert d !in a + b;
    }
  }

  /** Removing a pattern the text starts with leaves the rest. */
  lemma RemoveFirstPrefix(pat: string, x: string)
    ensures RemoveFirst(pat + x, pat) == x
  {
    assert OccursAt(pat + x, pat, 0);
    assert (pat + x)[|pat|..] == x;
  }
}
