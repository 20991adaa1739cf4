/** String operations of the JavaScript runtime that the bridge relies on, written out
    over `seq<char>`: `startsWith`/`endsWith`, `split`/`join` on one character, global
    literal replacement, `trim`, `toLowerCase` and number-to-string conversion. */
module Text {

  /** `w` occurs in `s` starting at position `i`. */
  predicate OccursAt(s: string, i: nat, w: string) {
    i + |w| <= |s| && s[i..i + |w|] == w
  }

  /** Two words that occur back to back occur as their concatenation. */
  lemma OccursConcat(s: string, i: nat, a: string, b: string)
    requires OccursAt(s, i, a) && OccursAt(s, i + |a|, b)
    ensures OccursAt(s, i, a + b)
  {
    assert s[i..i + |a| + |b|] == s[i..i + |a|] + s[i + |a|..i + |a| + |b|];
  }

  predicate StartsWith(s: string, p: string) {
    |p| <= |s| && s[..|p|] == p
  }

  predicate EndsWith(s: string, p: string) {
    |p| <= |s| && s[|s| - |p|..] == p
  }

  /** Position of the first `c` in `s`. */
  function IndexOf(s: string, c: char): (i: nat)
    requires c in s
    ensures i < |s| && s[i] == c
    ensures forall k :: 0 <= k < i ==> s[k] != c
  {
    if s[0] == c then 0 else 1 + IndexOf(s[1..], c)
  }

  /** Position of the last `c` in `s`. */
  function LastIndexOf(s: string, c: char): (i: nat)
    requires c in s
    ensures i < |s| && s[i] == c
    ensures forall k :: i < k < |s| ==> s[k] != c
  {
    if s[|s| - 1] == c then |s| - 1 else LastIndexOf(s[..|s| - 1], c)
  }

  /** JavaScript's `s.split(c)` for a one-character separator: never empty, no part
      holds the separator, and there are two parts or more exactly when `c` occurs. */
  function Split(s: string, c: char): (parts: seq<string>)
    ensures |parts| >= 1
    ensures forall k :: 0 <= k < |parts| ==> c !in parts[k]
    ensures |parts| >= 2 <==> c in s
    decreases |s|
  {
    if c in s then
      var i := IndexOf(s, c);
      assert c !in s[..i];
      [s[..i]] + Split(s[i + 1..], c)
    else
      [s]
  }

  /** JavaScript's `parts.join(sep)`. */
  function Join(parts: seq<string>, sep: string): string
  {
    if |parts| == 0 then ""
    else if |parts| == 1 then parts[0]
    else parts[0] + sep + Join(parts[1..], sep)
  }

  /** Splitting on `c` and joining the parts with `c` gives back the original string. */
  lemma {:induction false} JoinSplit(s: string, c: char)
    ensures Join(Split(s, c), [c]) == s
    decreases |s|
  {
    if c in s {
      var i := IndexOf(s, c);
      var rest := Split(s[i + 1..], c);
      JoinSplit(s[i + 1..], c);
      assert Split(s, c) == [s[..i]] + rest;
      assert (Split(s, c))[1..] == rest;
      assert s == s[..i] + [c] + s[i + 1..];
    }
  }

  /** The first part of a split is the text before the first separator, and the other
      parts, joined again, are the text after it. */
  lemma SplitAtFirst(s: string, c: char)
    requires c in s
    ensures Split(s, c)[0] == s[..IndexOf(s, c)]
    ensures Join(Split(s, c)[1..], [c]) == s[IndexOf(s, c) + 1..]
  {
    var i := IndexOf(s, c);
    var rest := Split(s[i + 1..], c);
    assert Split(s, c) == [s[..i]] + rest;
    assert ([s[..i]] + rest)[1..] == rest;
    JoinSplit(s[i + 1..], c);
  }

  /** The part before the first separator of `x + [c] + y` is `x` when `x` has no `c`. */
  lemma SplitHead(x: string, c: char, y: string)
    requires c !in x
    ensures Split(x + [c] + y, c)[0] == x
  {
    var s := x + [c] + y;
    assert s[|x|] == c;
    forall k | 0 <= k < |x|
      ensures s[k] != c
    {
      assert s[k] == x[k];
    }
    var i := IndexOf(s, c);
    assert i == |x|;
    assert s[..i] == x;
  }

  /** Global literal replacement, `s.replace(/<escaped pat>/g, v)` with `v` taken
      literally: occurrences are found left to right and do not overlap. */
  function ReplaceAll(s: string, pat: string, v: string): string
    requires |pat| > 0
    decreases |s|
  {
    if |s| < |pat| then s
    else if s[..|pat|] == pat then v + ReplaceAll(s[|pat|..], pat, v)
    else [s[0]] + ReplaceAll(s[1..], pat, v)
  }

  /** Text in which the pattern's first character does not occur passes through
      replacement unchanged, whatever follows it. */
  lemma {:induction false} ReplaceSkipsPlainText(x: string, y: string, pat: string, v: string)
    requires |pat| > 0
    requires pat[0] !in x
    ensures ReplaceAll(x + y, pat, v) == x + ReplaceAll(y, pat, v)
    decreases |x|
  {
    if |x| == 0 {
      assert x + y == y;
    } else {
      var s := x + y;
      if |s| < |pat| {
        assert ReplaceAll(y, pat, v) == y;
      } else {
        assert s[0] == x[0];
        assert s[..|pat|][0] == s[0];
        assert s[..|pat|] != pat;
        assert s[1..] == x[1..] + y;
        ReplaceSkipsPlainText(x[1..], y, pat, v);
        calc {
          ReplaceAll(s, pat, v);
          [s[0]] + ReplaceAll(x[1..] + y, pat, v);
          [x[0]] + (x[1..] + ReplaceAll(y, pat, v));
          { assert x == [x[0]] + x[1..]; }
          x + ReplaceAll(y, pat, v);
        }
      }
    }
  }

  /** An occurrence of the pattern at the front is replaced by the value. */
  lemma ReplaceAtToken(pat: string, y: string, v: string)
    requires |pat| > 0
    ensures ReplaceAll(pat + y, pat, v) == v + ReplaceAll(y, pat, v)
  {
    assert (pat + y)[..|pat|] == pat;
    assert (pat + y)[|pat|..] == y;
  }

  /** A template made of plain parts separated by the token renders to the same parts
      separated by the value: replacement touches the tokens and nothing else. */
  lemma {:induction false} ReplaceInTemplate(parts: seq<string>, pat: string, v: string)
    requires |pat| > 0
    requires forall k :: 0 <= k < |parts| ==> pat[0] !in parts[k]
    ensures ReplaceAll(Join(parts, pat), pat, v) == Join(parts, v)
    decreases |parts|
  {
    if |parts| == 1 {
      ReplaceSkipsPlainText(parts[0], "", pat, v);
      assert parts[0] + "" == parts[0];
    } else if |parts| > 1 {
      var tail := Join(parts[1..], pat);
      assert Join(parts, pat) == parts[0] + (pat + tail);
      ReplaceSkipsPlainText(parts[0], pat + tail, pat, v);
      ReplaceAtToken(pat, tail, v);
      ReplaceInTemplate(parts[1..], pat, v);
      assert Join(parts, v) == parts[0] + (v + Join(parts[1..], v));
    }
  }

  /** Text without the pattern's first character is left exactly as it is. */
  lemma ReplaceLeavesPlainText(s: string, pat: string, v: string)
    requires |pat| > 0
    requires pat[0] !in s
    ensures ReplaceAll(s, pat, v) == s
  {
    ReplaceSkipsPlainText(s, "", pat, v);
    assert s + "" == s;
  }

  /** Text in which the pattern occurs nowhere is left exactly as it is. */
  lemma {:induction false} ReplaceWithoutOccurrence(s: string, pat: string, v: string)
    requires |pat| > 0
    requires forall i: nat :: !OccursAt(s, i, pat)
    ensures ReplaceAll(s, pat, v) == s
    decreases |s|
  {
    if |s| >= |pat| {
      assert !OccursAt(s, 0, pat);
      forall i: nat
        ensures !OccursAt(s[1..], i, pat)
      {
        assert !OccursAt(s, i + 1, pat);
        if i + |pat| <= |s[1..]| {
          assert s[1..][i..i + |pat|] == s[i + 1..i + 1 + |pat|];
        }
      }
      ReplaceWithoutOccurrence(s[1..], pat, v);
      assert s == [s[0]] + s[1..];
    }
  }

  /** Replacing every `c` by `v` is splitting on `c` and joining with `v`. */
  lemma ReplaceCharIsSplitJoin(s: string, c: char, v: string)
    ensures ReplaceAll(s, [c], v) == Join(Split(s, c), v)
  {
    JoinSplit(s, c);
    ReplaceInTemplate(Split(s, c), [c], v);
  }

  /** Joining parts free of `c` with a separator free of `c` yields no `c`. */
  lemma {:induction false} JoinAvoids(parts: seq<string>, sep: string, c: char)
    requires forall k :: 0 <= k < |parts| ==> c !in parts[k]
    requires c !in sep
    ensures c !in Join(parts, sep)
    decreases |parts|
  {
    if |parts| > 1 {
      JoinAvoids(parts[1..], sep, c);
      assert Join(parts, sep) == parts[0] + sep + Join(parts[1..], sep);
    }
  }

  /** The white space and line terminators that JavaScript's `trim` removes. */
  predicate IsJsSpace(c: char) {
    c == ' ' || c == '\t' || c == '\n' || c == '\r' || c == '\U{B}' || c == '\U{C}'
    || c == '\U{A0}' || c == '\U{1680}' || ('\U{2000}' <= c <= '\U{200A}')
    || c == '\U{2028}' || c == '\U{2029}' || c == '\U{202F}' || c == '\U{205F}'
    || c == '\U{3000}' || c == '\U{FEFF}'
  }

  /** Some character of `s` is not white space. */
  predicate HasContent(s: string) {
    exists k :: 0 <= k < |s| && !IsJsSpace(s[k])
  }

  function TrimStart(s: string): (r: string)
    ensures |r| <= |s| && r == s[|s| - |r|..]
    ensures forall k :: 0 <= k < |s| - |r| ==> IsJsSpace(s[k])
    ensures |r| > 0 ==> !IsJsSpace(r[0])
  {
    if |s| > 0 && IsJsSpace(s[0]) then TrimStart(s[1..]) else s
  }

  function TrimEnd(s: string): (r: string)
    ensures |r| <= |s| && r == s[..|r|]
    ensures forall k :: |r| <= k < |s| ==> IsJsSpace(s[k])
    ensures |r| > 0 ==> !IsJsSpace(r[|r| - 1])
  {
    if |s| > 0 && IsJsSpace(s[|s| - 1]) then TrimEnd(s[..|s| - 1]) else s
  }

  /** JavaScript's `s.trim()`: a contiguous piece of `s`, everything cut away is white
      space, and what is left neither starts nor ends with white space. */
  function Trim(s: string): (r: string)
    ensures exists a: nat :: OccursAt(s, a, r)
    ensures |r| > 0 ==> !IsJsSpace(r[0]) && !IsJsSpace(r[|r| - 1])
  {
    var t := TrimStart(s);
    var r := TrimEnd(t);
    var a := |s| - |t|;
    assert r == t[..|r|] && t == s[a..];
    assert OccursAt(s, a, r);
    r
  }

  /** `s.trim().length > 0` exactly when `s` holds a character that is not white space. */
  lemma TrimmedNonEmpty(s: string)
    ensures |Trim(s)| > 0 <==> HasContent(s)
  {
    var t := TrimStart(s);
    var r := TrimEnd(t);
    var a := |s| - |t|;
    assert t == s[a..];
    if HasContent(s) {
      var k :| 0 <= k < |s| && !IsJsSpace(s[k]);
      KeptByTrim(s, t, r, a, k);
    }
    if |r| > 0 {
      assert r[0] == t[0] == s[a];
      assert !IsJsSpace(s[a]);
    }
  }

  lemma KeptByTrim(s: string, t: string, r: string, a: nat, k: nat)
    requires t == TrimStart(s) && r == TrimEnd(t) && a == |s| - |t|
    requires k < |s| && !IsJsSpace(s[k])
    ensures |r| > 0
  {
    assert a <= k;
    assert t[k - a] == s[k];
    assert k - a < |r|;
  }

  /** ASCII upper-case letters become lower case; every other character is kept. */
  function LowerChar(c: char): char {
    if 'A' <= c <= 'Z' then (c as int + 32) as char else c
  }

  function ToLower(s: string): (r: string)
    ensures |r| == |s|
    ensures forall k :: 0 <= k < |s| ==> r[k] == LowerChar(s[k])
  {
    seq(|s|, k requires 0 <= k < |s| => LowerChar(s[k]))
  }

  function DigitChar(d: nat): char
    requires d < 10
  {
    "0123456789"[d]
  }

  /** The decimal spelling of `n`, as JavaScript's `String(n)` writes an integer. */
  function Decimal(n: nat): (r: string)
    ensures |r| > 0
    ensures forall k :: 0 <= k < |r| ==> '0' <= r[k] <= '9'
  {
    if n < 10 then [DigitChar(n)] else Decimal(n / 10) + [DigitChar(n % 10)]
  }
}
