/** The string primitives the services and the middleware rely on, as Go's
    standard library defines them: `strings.TrimSpace`, the case-insensitive
    comparison with the scheme name "Bearer", and `strings.SplitN(s, " ", 2)`. */
module Text {

  /** White space in the sense of Go's `unicode.IsSpace`: the Latin-1 space
      characters and the remaining code points with the Unicode White_Space
      property. */
  predicate IsSpace(c: char) {
    || c == ' ' || c == '\t' || c == '\n' || c == '\U{B}' || c == '\U{C}' || c == '\r'
    || c == '\U{85}' || c == '\U{A0}' || c == '\U{1680}'
    || ('\U{2000}' <= c <= '\U{200A}')
    || c == '\U{2028}' || c == '\U{2029}' || c == '\U{202F}' || c == '\U{205F}' || c == '\U{3000}'
  }

  predicate AllSpace(s: string) {
    forall i :: 0 <= i < |s| ==> IsSpace(s[i])
  }

  /** True when `s` is nothing but white space (including the empty string). */
  predicate IsBlank(s: string) {
    AllSpace(s)
  }

  lemma AllSpaceConcat(a: string, b: string)
    requires AllSpace(a) && AllSpace(b)
    ensures AllSpace(a + b)
  {
    forall i | 0 <= i < |a + b| ensures IsSpace((a + b)[i]) {
      if i < |a| { assert (a + b)[i] == a[i]; } else { assert (a + b)[i] == b[i - |a|]; }
    }
  }

  /** The end of the run of white space that starts at `i`. */
  function SpaceRunEnd(s: string, i: nat): (n: nat)
    requires i <= |s|
    ensures i <= n <= |s|
    decreases |s| - i
  {
    if i < |s| && IsSpace(s[i]) then SpaceRunEnd(s, i + 1) else i
  }

  /** Everything from `i` up to the run's end is white space, and the run
      ends at the end of `s` or at a non-space. */
  lemma {:induction false} SpaceRunEndIsRun(s: string, i: nat)
    requires i <= |s|
    ensures forall j :: i <= j < SpaceRunEnd(s, i) ==> IsSpace(s[j])
    ensures SpaceRunEnd(s, i) == |s| || !IsSpace(s[SpaceRunEnd(s, i)])
    decreases |s| - i
  {
    if i < |s| && IsSpace(s[i]) {
      SpaceRunEndIsRun(s, i + 1);
    }
  }

  /** The start of the run of white space that ends at `j`. */
  function SpaceRunStart(s: string, j: nat): (n: nat)
    requires j <= |s|
    ensures n <= j
  {
    if j > 0 && IsSpace(s[j - 1]) then SpaceRunStart(s, j - 1) else j
  }

  /** Everything from the run's start up to `j` is white space, and the run
      starts at the beginning of `s` or just after a non-space. */
  lemma {:induction false} SpaceRunStartIsRun(s: string, j: nat)
    requires j <= |s|
    ensures forall i :: SpaceRunStart(s, j) <= i < j ==> IsSpace(s[i])
    ensures SpaceRunStart(s, j) == 0 || !IsSpace(s[SpaceRunStart(s, j) - 1])
  {
    if j > 0 && IsSpace(s[j - 1]) {
      SpaceRunStartIsRun(s, j - 1);
    }
  }

  /** Drops the leading white space: the result is a suffix of `s`. */
  function TrimLeft(s: string): (r: string)
    ensures |r| <= |s| && r == s[|s| - |r|..]
  {
    s[SpaceRunEnd(s, 0)..]
  }

  /** What `TrimLeft` cuts off is white space, and what it keeps does not
      start with white space. */
  lemma TrimLeftShape(s: string)
    ensures AllSpace(s[..|s| - |TrimLeft(s)|])
    ensures TrimLeft(s) == [] || !IsSpace(TrimLeft(s)[0])
  {
    SpaceRunEndIsRun(s, 0);
  }

  /** Drops the trailing white space: the result is a prefix of `s`. */
  function TrimRight(s: string): (r: string)
    ensures |r| <= |s| && r == s[..|r|]
  {
    s[..SpaceRunStart(s, |s|)]
  }

  /** What `TrimRight` cuts off is white space, and what it keeps does not
      end with white space. */
  lemma TrimRightShape(s: string)
    ensures AllSpace(s[|TrimRight(s)|..])
    ensures TrimRight(s) == [] || !IsSpace(TrimRight(s)[|TrimRight(s)| - 1])
  {
    SpaceRunStartIsRun(s, |s|);
  }

  /** `r` is `s` with some white space cut off at each end. */
  predicate IsPaddedBy(s: string, r: string) {
    exists k :: 0 <= k <= |s| - |r| && s[k..k + |r|] == r && AllSpace(s[..k]) && AllSpace(s[k + |r|..])
  }

  /** `strings.TrimSpace`: `s` with white space removed at both ends. */
  function TrimSpace(s: string): (r: string)
    ensures |r| <= |s|
  {
    TrimRight(TrimLeft(s))
  }

  /** The trimmed text is empty or starts and ends with a non-space, and
      what was cut off on either side of it is white space. */
  lemma TrimSpaceShape(s: string)
    ensures var r := TrimSpace(s);
      && (r == [] || (!IsSpace(r[0]) && !IsSpace(r[|r| - 1])))
      && IsPaddedBy(s, r)
  {
    var left := TrimLeft(s);
    var r := TrimRight(left);
    TrimLeftShape(s);
    TrimRightShape(left);
    if r != [] {
      assert r[0] == left[0];
    }
    TrimSpaceSlices(s, left, r);
  }

  lemma TrimSpaceSlices(s: string, left: string, r: string)
    requires |left| <= |s| && left == s[|s| - |left|..] && AllSpace(s[..|s| - |left|])
    requires |r| <= |left| && r == left[..|r|] && AllSpace(left[|r|..])
    ensures IsPaddedBy(s, r)
  {
    var k := |s| - |left|;
    assert s[k..k + |r|] == r;
    assert s[k + |r|..] == left[|r|..];
  }

  predicate NoSpaces(s: string) {
    forall i :: 0 <= i < |s| ==> !IsSpace(s[i])
  }

  /** A string that neither starts nor ends with white space is its own
      trimming. */
  lemma TrimSpaceOfTrimmed(s: string)
    requires s == [] || (!IsSpace(s[0]) && !IsSpace(s[|s| - 1]))
    ensures TrimSpace(s) == s
  {
    TrimLeftKeepsNonSpaceStart(s);
    TrimRightKeepsNonSpaceEnd(s);
  }

  /** The shape of the id prefixes the repositories use: a lower-case
      letter and a dash. */
  predicate IdPrefix(prefix: string) {
    |prefix| == 2 && 'a' <= prefix[0] <= 'z' && prefix[1] == '-'
  }

  /** A generated id (a prefix and a clock text holding no white space)
      survives trimming, so it can be looked up again. */
  lemma GeneratedIdIsTrimmed(prefix: string, stamp: string)
    requires IdPrefix(prefix) && NoSpaces(stamp)
    ensures TrimSpace(prefix + stamp) == prefix + stamp
  {
    assert !IsSpace(prefix[0]) && !IsSpace(prefix[1]);
    var s := prefix + stamp;
    assert s[0] == prefix[0];
    assert s[|s| - 1] == if |stamp| > 0 then stamp[|stamp| - 1] else prefix[|prefix| - 1];
    TrimSpaceOfTrimmed(s);
  }

  /** Trimming is idempotent. */
  lemma TrimSpaceIdempotent(s: string)
    ensures TrimSpace(TrimSpace(s)) == TrimSpace(s)
  {
    var r := TrimSpace(s);
    TrimSpaceShape(s);
    TrimLeftKeepsNonSpaceStart(r);
    TrimRightKeepsNonSpaceEnd(r);
  }

  lemma TrimLeftKeepsNonSpaceStart(s: string)
    requires s == [] || !IsSpace(s[0])
    ensures TrimLeft(s) == s
  {
  }

  lemma TrimRightKeepsNonSpaceEnd(s: string)
    requires s == [] || !IsSpace(s[|s| - 1])
    ensures TrimRight(s) == s
  {
  }

  /** The services' "empty after trimming" test is exactly "blank". */
  lemma TrimSpaceEmptyIffBlank(s: string)
    ensures TrimSpace(s) == [] <==> IsBlank(s)
  {
    var left := TrimLeft(s);
    TrimLeftEmptyIffAllSpace(s);
    TrimLeftShape(s);
    TrimRightShape(left);
    if TrimRight(left) == [] {
      assert left[0..] == left;
    }
  }

  lemma TrimLeftEmptyIffAllSpace(s: string)
    ensures TrimLeft(s) == [] <==> AllSpace(s)
  {
    SpaceRunEndIsRun(s, 0);
  }

  /** ASCII lower-casing. Comparing with "Bearer" through it is exactly Go's
      `strings.EqualFold`, because no code point outside ASCII folds to one of
      the letters b, e, a, r. */
  function Lower(c: char): char {
    if 'A' <= c <= 'Z' then (c as int + 32) as char else c
  }

  predicate EqualFold(a: string, b: string) {
    |a| == |b| && forall i :: 0 <= i < |a| ==> Lower(a[i]) == Lower(b[i])
  }

  /** The position of the first occurrence of `c` in `s`, or `|s|` when
      there is none. */
  function IndexOf(s: string, c: char): (k: nat)
    ensures k <= |s|
    ensures k < |s| ==> s[k] == c
    ensures forall i :: 0 <= i < k ==> s[i] != c
  {
    if |s| == 0 then 0
    else if s[0] == c then 0
    else 1 + IndexOf(s[1..], c)
  }

  /** `strings.SplitN(s, " ", 2)`: one part when `s` holds no space,
      otherwise the text before the first space and everything after it. */
  function SplitFirstSpace(s: string): (parts: seq<string>)
    ensures |parts| == 1 || |parts| == 2
    ensures |parts| == 1 <==> ' ' !in s
    ensures |parts| == 1 ==> parts[0] == s
    ensures |parts| == 2 ==> s == parts[0] + " " + parts[1] && ' ' !in parts[0]
  {
    var k := IndexOf(s, ' ');
    if k == |s| then [s]
    else
      assert s == s[..k] + " " + s[k + 1..];
      [s[..k], s[k + 1..]]
  }

  /** A header whose first word has no space in it splits right after that
      word, whatever spaces the rest holds. */
  lemma SplitAfterWord(word: string, rest: string)
    requires ' ' !in word
    ensures SplitFirstSpace(word + " " + rest) == [word, rest]
  {
    var header := word + " " + rest;
    var k := IndexOf(header, ' ');
    assert header[|word|] == ' ';
    forall i | 0 <= i < |word| ensures header[i] != ' ' {
      assert header[i] == word[i];
    }
    assert k == |word|;
    assert header[..k] == word && header[k + 1..] == rest;
  }
}
