/**
  The JavaScript string and array built-ins the CSV parser relies on:
  `String.prototype.trim`, `String.prototype.split` with a one-character
  separator, `String.prototype.toLowerCase` and `Array.prototype.indexOf`.
 */
module Text {

  /** The characters `trim` removes: ECMAScript WhiteSpace and LineTerminator code points. */
  predicate IsWhitespace(c: char) {
    c == ' ' || c == '\t' || c == '\n' || c == '\r' || c == '\U{000B}' || c == '\U{000C}'
    || c == '\U{00A0}' || c == '\U{1680}' || ('\U{2000}' <= c <= '\U{200A}')
    || c == '\U{2028}' || c == '\U{2029}' || c == '\U{202F}' || c == '\U{205F}'
    || c == '\U{3000}' || c == '\U{FEFF}'
  }

  predicate AllWhitespace(s: string) {
    forall i :: 0 <= i < |s| ==> IsWhitespace(s[i])
  }

  /** The position of the first non-whitespace character of `s` at or after `i`, or `|s|`. */
  function SkipForward(s: string, i: nat): (k: nat)
    requires i <= |s|
    ensures i <= k <= |s|
    ensures forall m :: i <= m < k ==> IsWhitespace(s[m])
    ensures k < |s| ==> !IsWhitespace(s[k])
    decreases |s| - i
  {
    if i < |s| && IsWhitespace(s[i]) then SkipForward(s, i + 1) else i
  }

  /**
    The end of `s[lo..j]` once its trailing whitespace is removed: the position
    after the last non-whitespace character in that range, or `lo`.
   */
  function SkipBackward(s: string, lo: nat, j: nat): (k: nat)
    requires lo <= j <= |s|
    ensures lo <= k <= j
    ensures forall m :: k <= m < j ==> IsWhitespace(s[m])
    ensures k > lo ==> !IsWhitespace(s[k - 1])
    decreases j
  {
    if j > lo && IsWhitespace(s[j - 1]) then SkipBackward(s, lo, j - 1) else j
  }

  /**
    `String.prototype.trim`: the infix of `s` left after removing whitespace at
    both ends. The result starts at offset `SkipForward(s, 0)`, everything
    before and after it is whitespace, and it neither starts nor ends with
    whitespace, which fixes it uniquely.
   */
  function Trim(s: string): (r: string)
    ensures var a := SkipForward(s, 0);
      a + |r| <= |s| && r == s[a..a + |r|]
      && AllWhitespace(s[..a]) && AllWhitespace(s[a + |r|..])
    ensures r == [] || (!IsWhitespace(r[0]) && !IsWhitespace(r[|r| - 1]))
  {
    var a := SkipForward(s, 0);
    var b := SkipBackward(s, a, |s|);
    WhitespaceRange(s, 0, a);
    WhitespaceRange(s, b, |s|);
    s[a..b]
  }

  lemma WhitespaceRange(s: string, i: nat, j: nat)
    requires i <= j <= |s|
    requires forall m :: i <= m < j ==> IsWhitespace(s[m])
    ensures AllWhitespace(s[i..j])
  {
    forall m | 0 <= m < j - i
      ensures IsWhitespace(s[i..j][m])
    {
      assert s[i..j][m] == s[i + m];
    }
  }

  lemma TrimIdempotent(s: string)
    ensures Trim(Trim(s)) == Trim(s)
  {
  }

  /** Joins `parts` with `sep` between each two neighbours; the inverse of `Split`. */
  function Join(parts: seq<string>, sep: char): string
    requires |parts| >= 1
    decreases |parts|
  {
    if |parts| == 1 then parts[0] else parts[0] + [sep] + Join(parts[1..], sep)
  }

  /**
    `String.prototype.split(sep)` for a one-character separator: the pieces
    between the separators, so one more piece than separators (the empty
    string gives one empty piece). No piece contains `sep`, and joining the
    pieces with `sep` gives back `s`.
   */
  function Split(s: string, sep: char): (parts: seq<string>)
    ensures |parts| >= 1
    ensures forall k :: 0 <= k < |parts| ==> sep !in parts[k]
    ensures Join(parts, sep) == s
    decreases |s|
  {
    if |s| == 0 then
      [""]
    else if s[0] == sep then
      var rest := Split(s[1..], sep);
      assert s == [sep] + s[1..];
      [""] + rest
    else
      var rest := Split(s[1..], sep);
      var parts := [[s[0]] + rest[0]] + rest[1..];
      assert parts[1..] == rest[1..];
      assert s == [s[0]] + s[1..];
      parts
  }

  /** A string without the separator is a single piece, and a single piece has no separator. */
  lemma {:induction false} SplitSingle(s: string, sep: char)
    ensures |Split(s, sep)| == 1 <==> sep !in s
  {
    var parts := Split(s, sep);
    if |parts| > 1 {
      assert s[|parts[0]|] == sep;
    }
  }

  lemma {:induction false} SplitPiece(p: string, sep: char)
    requires sep !in p
    ensures Split(p, sep) == [p]
    decreases |p|
  {
    if |p| > 0 {
      SplitPiece(p[1..], sep);
    }
  }

  lemma {:induction false} SplitAfterPiece(p: string, sep: char, t: string)
    requires sep !in p
    ensures Split(p + [sep] + t, sep) == [p] + Split(t, sep)
    decreases |p|
  {
    var s := p + [sep] + t;
    if |p| == 0 {
      assert s[1..] == t;
    } else {
      assert s[1..] == p[1..] + [sep] + t;
      SplitAfterPiece(p[1..], sep, t);
      assert [p[0]] + p[1..] == p;
    }
  }

  /** Splitting undoes joining pieces that do not contain the separator. */
  lemma {:induction false} SplitJoin(parts: seq<string>, sep: char)
    requires |parts| >= 1
    requires forall k :: 0 <= k < |parts| ==> sep !in parts[k]
    ensures Split(Join(parts, sep), sep) == parts
    decreases |parts|
  {
    if |parts| == 1 {
      SplitPiece(parts[0], sep);
    } else {
      SplitJoin(parts[1..], sep);
      SplitAfterPiece(parts[0], sep, Join(parts[1..], sep));
    }
  }

  /**
    `toLowerCase` on one character, as far as it produces ASCII: `A`..`Z` and
    the Kelvin sign U+212A become ASCII lower-case letters; every other
    character keeps its case here.
   */
  function LowerChar(c: char): (d: char)
    ensures 'A' <= c <= 'Z' ==> d as int == c as int + 32
    ensures c == '\U{212A}' ==> d == 'k'
    ensures !('A' <= c <= 'Z') && c != '\U{212A}' ==> d == c
    ensures !('A' <= d <= 'Z')
    ensures 'a' <= d <= 'z' <==> 'a' <= c <= 'z' || 'A' <= c <= 'Z' || c == '\U{212A}'
    ensures IsWhitespace(d) <==> IsWhitespace(c)
  {
    if 'A' <= c <= 'Z' then (c as int + 32) as char
    else if c == '\U{212A}' then 'k'
    else c
  }

  /** `String.prototype.toLowerCase`, character by character. */
  function ToLower(s: string): (r: string)
    ensures |r| == |s|
    ensures forall i :: 0 <= i < |s| ==> r[i] == LowerChar(s[i])
    ensures forall i :: 0 <= i < |r| ==> !('A' <= r[i] <= 'Z')
  {
    seq(|s|, i requires 0 <= i < |s| => LowerChar(s[i]))
  }

  /**
    `s` spells the word `w` ignoring ASCII case: it has the word's length and
    each character is the word's letter, its upper-case ASCII form, or, for
    `k`, the Kelvin sign.
   */
  predicate CaselessSpelling(s: string, w: string) {
    |s| == |w| && forall i :: 0 <= i < |s| ==>
      s[i] == w[i] || s[i] as int == w[i] as int - 32 || (w[i] == 'k' && s[i] == '\U{212A}')
  }

  /** A text lower-cases to a word of ASCII lower-case letters exactly when it spells that word. */
  lemma ToLowerMatchesWord(s: string, w: string)
    requires forall i :: 0 <= i < |w| ==> 'a' <= w[i] <= 'z'
    ensures ToLower(s) == w <==> CaselessSpelling(s, w)
  {
    if CaselessSpelling(s, w) {
      forall i | 0 <= i < |s|
        ensures ToLower(s)[i] == w[i]
      {
      }
    }
  }

  lemma {:induction false} SkipForwardToLower(s: string, i: nat)
    requires i <= |s|
    ensures SkipForward(ToLower(s), i) == SkipForward(s, i)
    decreases |s| - i
  {
    if i < |s| {
      assert ToLower(s)[i] == LowerChar(s[i]);
      SkipForwardToLower(s, i + 1);
    }
  }

  lemma {:induction false} SkipBackwardToLower(s: string, lo: nat, j: nat)
    requires lo <= j <= |s|
    ensures SkipBackward(ToLower(s), lo, j) == SkipBackward(s, lo, j)
    decreases j
  {
    if j > lo {
      assert ToLower(s)[j - 1] == LowerChar(s[j - 1]);
      SkipBackwardToLower(s, lo, j - 1);
    }
  }

  /** Lower-casing never turns whitespace into a letter or back, so it commutes with `Trim`. */
  lemma TrimToLower(s: string)
    ensures Trim(ToLower(s)) == ToLower(Trim(s))
  {
    var a := SkipForward(s, 0);
    SkipForwardToLower(s, 0);
    SkipBackwardToLower(s, a, |s|);
    var b := SkipBackward(s, a, |s|);
    assert |ToLower(s)| == |s|;
    assert Trim(ToLower(s)) == ToLower(s)[a..b];
    ToLowerSlice(s, a, b);
  }

  lemma ToLowerSlice(s: string, a: nat, b: nat)
    requires a <= b <= |s|
    ensures ToLower(s)[a..b] == ToLower(s[a..b])
  {
    forall m | 0 <= m < b - a
      ensures ToLower(s)[a..b][m] == ToLower(s[a..b])[m]
    {
      assert ToLower(s)[a..b][m] == ToLower(s)[a + m];
    }
  }

  /**
    `Array.prototype.indexOf`: the position of the first element equal to `x`,
    or -1 when there is none.
   */
  function IndexOf(xs: seq<string>, x: string): (r: int)
    ensures -1 <= r < |xs|
    ensures r == -1 <==> x !in xs
    ensures 0 <= r ==> xs[r] == x && forall j :: 0 <= j < r ==> xs[j] != x
    decreases |xs|
  {
    if |xs| == 0 then -1
    else if xs[0] == x then 0
    else
      var k := IndexOf(xs[1..], x);
      if k == -1 then -1 else k + 1
  }
}
