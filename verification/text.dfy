/**
 The handful of Python string operations the image-list rewriting relies on,
 written over `string` (a `seq<char>` of Unicode scalar values):
 - `str.isspace` on one character, shared by `str.strip()`, `str.split()` and
   the regular-expression class `\s`;
 - `str.strip()` with no argument;
 - `str.split(sep)` with a one-character separator, and `sep.join(...)`;
 - `str.split()` with no argument (split on runs of whitespace);
 - `str.replace(a, b)` for single characters.
 */
module Text {

  /** Python's `str.isspace()` for one character: the characters of bidirectional
      class WS, B or S, or of general category Zs. */
  predicate IsSpace(c: char) {
    || ('\t' <= c <= '\r')
    || ('\U{1C}' <= c <= ' ')
    || c == '\U{85}'
    || c == '\U{A0}'
    || c == '\U{1680}'
    || ('\U{2000}' <= c <= '\U{200A}')
    || c == '\U{2028}'
    || c == '\U{2029}'
    || c == '\U{202F}'
    || c == '\U{205F}'
    || c == '\U{3000}'
  }

  predicate AllSpace(s: string) {
    forall i :: 0 <= i < |s| ==> IsSpace(s[i])
  }

  predicate NoSpace(s: string) {
    forall i :: 0 <= i < |s| ==> !IsSpace(s[i])
  }

  /** Joining strings without whitespace gives a string without whitespace. */
  lemma NoSpaceAppend(a: string, b: string)
    requires NoSpace(a) && NoSpace(b)
    ensures NoSpace(a + b)
  {
    forall i | 0 <= i < |a + b| ensures !IsSpace((a + b)[i]) {
      if i < |a| { assert (a + b)[i] == a[i]; } else { assert (a + b)[i] == b[i - |a|]; }
    }
  }

  // ---------------------------------------------------------------------------
  // str.strip()

  /** The first index at or after `i` that does not hold whitespace, or `|s|`. */
  function SkipSpace(s: string, i: nat): (k: nat)
    requires i <= |s|
    ensures i <= k <= |s|
    ensures forall j :: i <= j < k ==> IsSpace(s[j])
    ensures k == |s| || !IsSpace(s[k])
    decreases |s| - i
  {
    if i == |s| || !IsSpace(s[i]) then i else SkipSpace(s, i + 1)
  }

  /** `s` without its trailing whitespace: the longest prefix that does not end with whitespace. */
  function TrimRight(s: string): (r: string)
    ensures |r| <= |s| && r == s[..|r|]
    ensures forall i :: |r| <= i < |s| ==> IsSpace(s[i])
    ensures r == [] || !IsSpace(s[|r| - 1])
    ensures r == [] <==> AllSpace(s)
    decreases |s|
  {
    if |s| > 0 && IsSpace(s[|s| - 1]) then
      var r := TrimRight(s[..|s| - 1]);
      assert forall i :: 0 <= i < |s| - 1 ==> s[..|s| - 1][i] == s[i];
      r
    else s
  }

  /** Where `Strip(s)` begins inside `s`. */
  function StripStart(s: string): (k: nat)
    ensures k <= |s|
    ensures forall i :: 0 <= i < k ==> IsSpace(s[i])
    ensures k == |s| || !IsSpace(s[k])
  {
    SkipSpace(s, 0)
  }

  /** Python's `s.strip()`: the slice of `s` left after removing whitespace at both ends. */
  function Strip(s: string): (r: string)
    ensures StripStart(s) + |r| <= |s|
    ensures r == s[StripStart(s)..StripStart(s) + |r|]
    ensures forall i :: StripStart(s) + |r| <= i < |s| ==> IsSpace(s[i])
    ensures r == [] || (!IsSpace(r[0]) && !IsSpace(r[|r| - 1]))
    ensures r == [] <==> AllSpace(s)
  {
    var k := StripStart(s);
    TrimSuffix(s, k);
    SuffixAllSpace(s, k);
    TrimRight(s[k..])
  }

  /** Trimming the tail `s[k..]` leaves a slice of `s` followed only by whitespace. */
  lemma TrimSuffix(s: string, k: nat)
    requires k <= |s|
    ensures var r := TrimRight(s[k..]);
      && k + |r| <= |s| && r == s[k..k + |r|]
      && (forall i :: k + |r| <= i < |s| ==> IsSpace(s[i]))
  {
    var t := s[k..];
    var r := TrimRight(t);
    assert r == t[..|r|];
    forall i | k + |r| <= i < |s| ensures IsSpace(s[i]) {
      assert s[i] == t[i - k];
    }
  }

  /** Behind a run of leading whitespace, the rest is all whitespace exactly when the whole is. */
  lemma SuffixAllSpace(s: string, k: nat)
    requires k <= |s|
    requires forall i :: 0 <= i < k ==> IsSpace(s[i])
    ensures AllSpace(s[k..]) <==> AllSpace(s)
  {
    if AllSpace(s[k..]) {
      forall i | k <= i < |s| ensures IsSpace(s[i]) {
        assert s[i] == s[k..][i - k];
      }
    }
  }

  /** A string without whitespace is its own `strip()`. */
  lemma StripNoSpace(s: string)
    requires NoSpace(s)
    ensures Strip(s) == s
  {
    assert StripStart(s) == 0;
    assert s[0..] == s;
  }

  /** A stripped string has nothing more to strip. */
  lemma StripIdempotent(s: string)
    ensures Strip(Strip(s)) == Strip(s)
  {
    var r := Strip(s);
    if r != [] {
      assert StripStart(r) == 0;
      assert r[0..] == r;
      TrimRightWhole(r);
    }
  }

  // ---------------------------------------------------------------------------
  // str.split(sep) and sep.join(parts)

  /** Index of the first `c` in `s` at or after `i`, or `|s|` when there is none. */
  function FindFrom(s: string, c: char, i: nat): (k: nat)
    requires i <= |s|
    ensures i <= k <= |s|
    ensures forall j :: i <= j < k ==> s[j] != c
    ensures k == |s| || s[k] == c
    decreases |s| - i
  {
    if i == |s| || s[i] == c then i else FindFrom(s, c, i + 1)
  }

  /** Index of the first `c` in `s`, or `|s|` when `s` holds none. */
  function FirstCut(s: string, c: char): (k: nat)
    ensures k <= |s|
    ensures forall j :: 0 <= j < k ==> s[j] != c
    ensures k == |s| || s[k] == c
  {
    FindFrom(s, c, 0)
  }

  /** The first `c` is where the string says it is: no other index has both properties. */
  lemma FirstCutAt(s: string, c: char, k: nat)
    requires k <= |s|
    requires forall j :: 0 <= j < k ==> s[j] != c
    requires k == |s| || s[k] == c
    ensures FirstCut(s, c) == k
  {
  }

  /** Python's `s.split(sep)` for a one-character separator: the pieces between
      consecutive separators, empty pieces included, so a string without the
      separator is its own single piece. */
  function Split(s: string, sep: char): (parts: seq<string>)
    ensures |parts| >= 1
    ensures |parts| == 1 <==> sep !in s
    ensures forall i :: 0 <= i < |parts| ==> sep !in parts[i]
    decreases |s|
  {
    var k := FirstCut(s, sep);
    if k == |s| then [s] else [s[..k]] + Split(s[k + 1..], sep)
  }

  /** A character absent from `s` is absent from every piece of its split. */
  lemma {:induction false} SplitKeepsOut(s: string, sep: char, c: char)
    requires c !in s
    ensures forall i :: 0 <= i < |Split(s, sep)| ==> c !in Split(s, sep)[i]
    decreases |s|
  {
    var k := FirstCut(s, sep);
    if k < |s| {
      var t := s[k + 1..];
      assert c !in t;
      SplitKeepsOut(t, sep, c);
      var parts := Split(s, sep);
      assert parts == [s[..k]] + Split(t, sep);
      forall i | 0 <= i < |parts|
        ensures c !in parts[i]
      {
        if i > 0 {
          assert parts[i] == Split(t, sep)[i - 1];
        }
      }
    }
  }

  /** A character absent from `s` is absent from every prefix of `s`. */
  lemma PrefixKeepsOut(s: string, r: string, c: char)
    requires c !in s
    requires |r| <= |s| && r == s[..|r|]
    ensures c !in r
  {
  }

  /** A character absent from `s` is absent from every suffix of `s`. */
  lemma SuffixKeepsOut(s: string, r: string, c: char)
    requires c !in s
    requires |r| <= |s| && r == s[|s| - |r|..]
    ensures c !in r
  {
  }

  /** A string without the separator splits into itself alone. */
  lemma SplitWhole(s: string, sep: char)
    requires sep !in s
    ensures Split(s, sep) == [s]
  {
    assert FirstCut(s, sep) == |s|;
  }

  /** Splitting `a + sep + t` where `a` holds no separator gives `a` followed by the pieces of `t`. */
  lemma SplitAtSeparator(a: string, t: string, sep: char)
    requires sep !in a
    ensures Split(a + [sep] + t, sep) == [a] + Split(t, sep)
  {
    var s := a + [sep] + t;
    FirstCutAt(s, sep, |a|);
    assert s[..|a|] == a;
    assert s[|a| + 1..] == t;
  }

  /** Three separator-free pieces joined by the separator split back into themselves. */
  lemma SplitThree(a: string, b: string, c: string, sep: char)
    requires sep !in a && sep !in b && sep !in c
    ensures Split(a + [sep] + b + [sep] + c, sep) == [a, b, c]
  {
    var tail := b + [sep] + c;
    SplitTwo(b, c, sep);
    SplitAtSeparator(a, tail, sep);
    JoinedThree(a, b, c, sep);
  }

  /** Two separator-free pieces joined by the separator split back into themselves. */
  lemma SplitTwo(b: string, c: string, sep: char)
    requires sep !in b && sep !in c
    ensures Split(b + [sep] + c, sep) == [b, c]
  {
    SplitWhole(c, sep);
    SplitAtSeparator(b, c, sep);
  }

  lemma JoinedThree(a: string, b: string, c: string, sep: char)
    ensures a + [sep] + b + [sep] + c == a + [sep] + (b + [sep] + c)
  {
  }

  /** Every string with a separator splits into its first piece, that separator and the rest. */
  lemma SplitFirst(s: string, sep: char)
    requires sep in s
    ensures var a := Split(s, sep)[0];
      |a| < |s| && s[|a|] == sep && Split(s, sep) == [a] + Split(s[|a| + 1..], sep)
  {
    var k := FirstCut(s, sep);
    assert k < |s|;
    SplitCut(s, sep);
  }

  /** Python's `sep.join(parts)`. */
  function Join(parts: seq<string>, sep: char): (s: string)
    requires |parts| >= 1
    decreases |parts|
  {
    if |parts| == 1 then parts[0] else parts[0] + [sep] + Join(parts[1..], sep)
  }

  /** Join undoes Split. */
  lemma {:induction false} JoinSplit(s: string, sep: char)
    ensures Join(Split(s, sep), sep) == s
    decreases |s|
  {
    var k := FirstCut(s, sep);
    if k < |s| {
      var t := s[k + 1..];
      JoinSplit(t, sep);
      SplitCut(s, sep);
      JoinCons(s[..k], Split(t, sep), sep);
      CutRejoins(s, k);
    } else {
      SplitWhole(s, sep);
    }
  }

  /** One step of Split: the piece before the first separator, then the split of the rest. */
  lemma SplitCut(s: string, sep: char)
    requires FirstCut(s, sep) < |s|
    ensures var k := FirstCut(s, sep);
      Split(s, sep) == [s[..k]] + Split(s[k + 1..], sep)
  {
  }

  /** One step of Join. */
  lemma JoinCons(a: string, rest: seq<string>, sep: char)
    requires |rest| >= 1
    ensures Join([a] + rest, sep) == a + [sep] + Join(rest, sep)
  {
    assert ([a] + rest)[1..] == rest;
  }

  /** Cutting a string around one index and gluing the pieces back gives the string. */
  lemma CutRejoins(s: string, k: nat)
    requires k < |s|
    ensures s[..k] + [s[k]] + s[k + 1..] == s
  {
  }

  /** Split undoes Join, as long as no piece contains the separator. */
  lemma {:induction false} SplitJoin(parts: seq<string>, sep: char)
    requires |parts| >= 1
    requires forall i :: 0 <= i < |parts| ==> sep !in parts[i]
    ensures Split(Join(parts, sep), sep) == parts
    decreases |parts|
  {
    if |parts| == 1 {
      SplitWhole(parts[0], sep);
    } else {
      SplitJoin(parts[1..], sep);
      SplitAtSeparator(parts[0], Join(parts[1..], sep), sep);
      assert parts == [parts[0]] + parts[1..];
    }
  }

  /** `l` ends `s` and is all of `s` or follows a separator. */
  predicate EndPiece(s: string, l: string, sep: char) {
    |l| <= |s| && l == s[|s| - |l|..] && (|l| == |s| || s[|s| - |l| - 1] == sep)
  }

  /** The last piece of a split: a suffix of `s`, the whole of `s` or preceded by a separator. */
  lemma SplitLast(s: string, sep: char)
    ensures var parts := Split(s, sep); EndPiece(s, parts[|parts| - 1], sep)
  {
    JoinSplit(s, sep);
    JoinLast(Split(s, sep), sep);
  }

  /** The last piece of a join ends the joined string. */
  lemma {:induction false} JoinLast(parts: seq<string>, sep: char)
    requires |parts| >= 1
    ensures EndPiece(Join(parts, sep), parts[|parts| - 1], sep)
    decreases |parts|
  {
    if |parts| == 1 {
      var l := parts[0];
      assert l[|l| - |l|..] == l;
    } else {
      JoinLast(parts[1..], sep);
      EndPieceAfter(parts[0], Join(parts[1..], sep), parts[|parts| - 1], sep);
    }
  }

  /** An end piece of `t` is an end piece of `a + [sep] + t`. */
  lemma EndPieceAfter(a: string, t: string, l: string, sep: char)
    requires EndPiece(t, l, sep)
    ensures EndPiece(a + [sep] + t, l, sep)
  {
    var s := a + [sep] + t;
    assert s[|s| - |l|..] == t[|t| - |l|..];
    if |l| < |t| {
      assert s[|s| - |l| - 1] == t[|t| - |l| - 1];
    } else {
      assert s[|s| - |l| - 1] == sep;
    }
  }

  /** Python's `s.split(c)[0]`: everything before the first `c`, or all of `s`. */
  function BeforeFirst(s: string, c: char): (r: string)
    ensures c !in r
    ensures |r| <= |s| && r == s[..|r|]
    ensures |r| == |s| || s[|r|] == c
    ensures r == s <==> c !in s
  {
    var k := FirstCut(s, c);
    assert Split(s, c)[0] == s[..k];
    Split(s, c)[0]
  }

  /** When the first `c` of `s` stands at index `k`, `s.split(c)[0]` is `s[..k]`. */
  lemma BeforeFirstAt(s: string, c: char, k: nat)
    requires k < |s| && s[k] == c && c !in s[..k]
    ensures BeforeFirst(s, c) == s[..k]
  {
  }

  /** Python's `s.split(c)[-1]`: everything after the last `c`, or all of `s`. */
  function AfterLast(s: string, c: char): (r: string)
    ensures c !in r
    ensures |r| <= |s| && r == s[|s| - |r|..]
    ensures |r| == |s| || s[|s| - |r| - 1] == c
    ensures r == s <==> c !in s
  {
    SplitLast(s, c);
    var parts := Split(s, c);
    if c in s then
      parts[|parts| - 1]
    else
      SplitWhole(s, c);
      parts[|parts| - 1]
  }

  // ---------------------------------------------------------------------------
  // str.split() with no argument

  /** Where the trailing run of non-whitespace characters of `s` begins. */
  function TrailStart(s: string): (k: nat)
    ensures k <= |s|
    ensures NoSpace(s[k..])
    ensures k == 0 || IsSpace(s[k - 1])
    ensures |s| > 0 && !IsSpace(s[|s| - 1]) ==> k < |s|
  {
    if |s| == 0 then 0
    else if IsSpace(s[|s| - 1]) then |s|
    else TrailStart(s[..|s| - 1])
  }

  /** Python's `s.split()`: the maximal runs of non-whitespace characters, in order. */
  function Words(s: string): (ws: seq<string>)
    ensures forall i :: 0 <= i < |ws| ==> |ws[i]| > 0 && NoSpace(ws[i])
    ensures |ws| == 0 <==> AllSpace(s)
    decreases |s|
  {
    if |s| == 0 then []
    else if IsSpace(s[|s| - 1]) then
      var ws := Words(s[..|s| - 1]);
      assert AllSpace(s) <==> AllSpace(s[..|s| - 1]) by {
        if AllSpace(s[..|s| - 1]) {
          forall i | 0 <= i < |s| ensures IsSpace(s[i]) {
            if i < |s| - 1 { assert s[i] == s[..|s| - 1][i]; }
          }
        }
      }
      ws
    else
      var k := TrailStart(s);
      Words(s[..k]) + [s[k..]]
  }

  /** Trailing whitespace does not change the words. */
  lemma {:induction false} WordsTrimRight(s: string)
    ensures Words(TrimRight(s)) == Words(s)
    decreases |s|
  {
    if |s| > 0 && IsSpace(s[|s| - 1]) {
      WordsTrimRight(s[..|s| - 1]);
    }
  }

  /** The right-stripped text of a line that is not all whitespace ends in a non-whitespace character. */
  lemma TrimRightEnds(s: string)
    requires !AllSpace(s)
    ensures var t := TrimRight(s); t != [] && !IsSpace(t[|t| - 1])
  {
    var t := TrimRight(s);
    assert t[|t| - 1] == s[|t| - 1];
  }

  /** Python's `s.split()[-1]` (an IndexError in Python when there is no word):
      the trailing run of non-whitespace characters of the right-stripped line. */
  function LastWord(s: string): (w: string)
    requires !AllSpace(s)
    ensures |w| > 0 && NoSpace(w)
    ensures var t := TrimRight(s);
      |w| <= |t| && w == t[|t| - |w|..] && (|w| == |t| || IsSpace(t[|t| - |w| - 1]))
  {
    TrimRightEnds(s);
    var t := TrimRight(s);
    t[TrailStart(t)..]
  }

  /** `LastWord` is the last element of `split()`. */
  lemma LastWordIsLastOfWords(s: string)
    requires !AllSpace(s)
    ensures var ws := Words(s); |ws| > 0 && LastWord(s) == ws[|ws| - 1]
  {
    WordsTrimRight(s);
    TrimRightEnds(s);
  }

  /** A string that does not end in whitespace is its own `rstrip()`. */
  lemma TrimRightWhole(s: string)
    requires s != [] && !IsSpace(s[|s| - 1])
    ensures TrimRight(s) == s
  {
  }

  /** `w` is a trailing word of `s`: a non-empty, whitespace-free suffix that is
      all of `s` or follows whitespace. */
  predicate TrailWord(s: string, w: string) {
    0 < |w| <= |s| && w == s[|s| - |w|..] && NoSpace(w) && (|w| == |s| || IsSpace(s[|s| - |w| - 1]))
  }

  /** A string has at most one trailing word. */
  lemma SameTrailingWord(s: string, v: string, w: string)
    requires TrailWord(s, v) && TrailWord(s, w)
    ensures v == w
  {
  }

  /** A word after nothing or after whitespace is the trailing word of the whole. */
  lemma TrailWordAfter(x: string, w: string)
    requires |w| > 0 && NoSpace(w)
    requires x == [] || IsSpace(x[|x| - 1])
    ensures TrailWord(x + w, w)
  {
    var s := x + w;
    assert w == s[|s| - |w|..];
    if x != [] {
      assert s[|s| - |w| - 1] == x[|x| - 1];
    }
  }

  /** The last word of `x + w`, when `w` is a word and `x` is empty or ends in whitespace, is `w`. */
  lemma LastWordAfter(x: string, w: string)
    requires |w| > 0 && NoSpace(w)
    requires x == [] || IsSpace(x[|x| - 1])
    ensures !AllSpace(x + w) && LastWord(x + w) == w
  {
    var s := x + w;
    assert s[|s| - 1] == w[|w| - 1];
    TrimRightWhole(s);
    TrailWordAfter(x, w);
    SameTrailingWord(s, LastWord(s), w);
  }

  // ---------------------------------------------------------------------------
  // str.replace(a, b) on single characters

  /** Python's `s.replace(a, b)` for one-character `a` and `b`. */
  function ReplaceChar(s: string, a: char, b: char): (r: string)
    ensures |r| == |s|
    ensures forall i :: 0 <= i < |s| ==> r[i] == (if s[i] == a then b else s[i])
    ensures a != b ==> a !in r
  {
    if |s| == 0 then [] else [if s[0] == a then b else s[0]] + ReplaceChar(s[1..], a, b)
  }

  /** A character other than the replacement stays out of the result when it was out of the input. */
  lemma ReplaceKeepsOut(s: string, a: char, b: char, c: char)
    requires c !in s && c != b
    ensures c !in ReplaceChar(s, a, b)
  {
    var r := ReplaceChar(s, a, b);
    forall i | 0 <= i < |r| ensures r[i] != c {
      assert s[i] != c;
    }
  }

  /** Replacing back recovers the original when `b` did not occur in it. */
  lemma ReplaceRoundTrip(s: string, a: char, b: char)
    requires b !in s
    ensures ReplaceChar(ReplaceChar(s, a, b), b, a) == s
  {
    var r := ReplaceChar(ReplaceChar(s, a, b), b, a);
    assert forall i :: 0 <= i < |s| ==> s[i] != b;
    assert forall i :: 0 <= i < |s| ==> r[i] == s[i];
  }
}
