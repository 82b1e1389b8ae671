/**
 The `--platform` qualifier of an image-list line: the regular-expression
 search that finds it, the prefix it puts in front of the destination name, and
 the `docker pull` argument list it joins.
 */
module Platform {
  import opened Text
  import opened Collect

  const Flag: string := "--platform"

  /** The pattern `--platform[ =]([^\s]+)` matches `line` at index `i`: the flag,
      one space or `=`, then at least one non-whitespace character. */
  predicate MatchesAt(line: string, i: nat) {
    && i + |Flag| + 2 <= |line|
    && line[i..i + |Flag|] == Flag
    && (line[i + |Flag|] == ' ' || line[i + |Flag|] == '=')
    && !IsSpace(line[i + |Flag| + 1])
  }

  /** `i` is where `re.search` reports the match: the leftmost index that matches. */
  predicate LeftmostMatch(line: string, i: nat) {
    MatchesAt(line, i) && forall j: nat :: j < i ==> !MatchesAt(line, j)
  }

  /** End of the run of non-whitespace characters that starts at `i`. */
  function RunEnd(s: string, i: nat): (j: nat)
    requires i <= |s|
    ensures i <= j <= |s|
    ensures NoSpace(s[i..j])
    ensures j == |s| || IsSpace(s[j])
    decreases |s| - i
  {
    if i == |s| || IsSpace(s[i]) then i
    else
      var j := RunEnd(s, i + 1);
      assert s[i..j] == [s[i]] + s[i + 1..j];
      j
  }

  /** A run that is known to stop at `k` ends at `k`. */
  lemma {:induction false} RunEndAt(s: string, i: nat, k: nat)
    requires i <= k <= |s|
    requires NoSpace(s[i..k])
    requires k == |s| || IsSpace(s[k])
    ensures RunEnd(s, i) == k
    decreases k - i
  {
    if i < k {
      assert s[i] == s[i..k][0];
      assert s[i + 1..k] == s[i..k][1..];
      RunEndAt(s, i + 1, k);
    }
  }

  /** Group 1 of a match at `i`: the greedy run of non-whitespace after `--platform` and its separator. */
  function Group(line: string, i: nat): (g: string)
    requires MatchesAt(line, i)
    ensures |g| > 0 && NoSpace(g)
  {
    line[i + |Flag| + 1..RunEnd(line, i + |Flag| + 1)]
  }

  /** The leftmost match at or after `from`, scanning forward as `re.search` does. */
  function FirstMatchFrom(line: string, from: nat): (r: Option<nat>)
    ensures r.Some? ==> from <= r.value && MatchesAt(line, r.value)
    ensures r.Some? ==> forall j: nat :: from <= j < r.value ==> !MatchesAt(line, j)
    ensures r.None? ==> forall j: nat :: from <= j ==> !MatchesAt(line, j)
    decreases |line| - from
  {
    if from + |Flag| + 2 > |line| then None
    else if MatchesAt(line, from) then Some(from)
    else FirstMatchFrom(line, from + 1)
  }

  /** Source lines 203-204: `re.search(r'--platform[ =]([^\s]+)', line)`, group 1,
      or the empty string when nothing matches. */
  function PlatformOf(line: string): (p: string)
    ensures p == "" <==> forall i: nat :: !MatchesAt(line, i)
    ensures NoSpace(p)
    ensures p != "" ==> exists i: nat :: LeftmostMatch(line, i) && p == Group(line, i)
  {
    match FirstMatchFrom(line, 0)
    case None => ""
    case Some(i) =>
      assert LeftmostMatch(line, i);
      Group(line, i)
  }

  /** A line that starts with `--platform`, a space or `=`, then `p` followed by
      whitespace or the end of the line yields `p`. */
  lemma PlatformOfFlagLine(sep: char, p: string, rest: string)
    requires sep == ' ' || sep == '='
    requires |p| > 0 && NoSpace(p)
    requires rest == [] || IsSpace(rest[0])
    ensures PlatformOf(Flag + [sep] + p + rest) == p
  {
    var line := Flag + [sep] + p + rest;
    var k := |Flag| + 1 + |p|;
    assert line[..|Flag|] == Flag;
    assert line[|Flag| + 1..k] == p;
    assert line[|Flag| + 1] == p[0];
    assert LeftmostMatch(line, 0);
    assert k == |line| || line[k] == rest[0];
    RunEndAt(line, |Flag| + 1, k);
    var q := PlatformOf(line);
    var i: nat :| LeftmostMatch(line, i) && q == Group(line, i);
    assert i == 0;
  }

  /** A line without a `-` holds no `--platform` and so has no platform. */
  lemma NoFlagNoPlatform(line: string)
    requires '-' !in line
    ensures PlatformOf(line) == ""
  {
    forall i: nat ensures !MatchesAt(line, i) {
      if i + |Flag| <= |line| {
        assert line[i] == line[i..i + |Flag|][0];
      }
    }
  }

  /** Source lines 221-225: no prefix without a platform; otherwise the platform
      with every `/` turned into `_`, then one `_`. */
  function PlatformPrefix(platform: string): (prefix: string)
    ensures prefix == "" <==> platform == ""
    ensures '/' !in prefix
    ensures platform != "" ==> |prefix| == |platform| + 1 && prefix[|platform|] == '_'
    ensures platform != "" ==> prefix[..|platform|] == ReplaceChar(platform, '/', '_')
  {
    if platform == "" then "" else ReplaceChar(platform, '/', '_') + "_"
  }

  /** Besides `_`, the prefix holds only characters of the platform. */
  lemma PlatformPrefixKeepsOut(platform: string, c: char)
    requires c !in platform && c != '_'
    ensures c !in PlatformPrefix(platform)
  {
    if platform != "" {
      ReplaceKeepsOut(platform, '/', '_', c);
    }
  }

  /** A platform without `_` can be read back from its prefix, so distinct such
      platforms give distinct prefixes. */
  lemma PlatformPrefixRoundTrip(platform: string)
    requires platform != "" && '_' !in platform
    ensures var prefix := PlatformPrefix(platform);
      ReplaceChar(prefix[..|prefix| - 1], '_', '/') == platform
  {
    var prefix := PlatformPrefix(platform);
    assert prefix[..|prefix| - 1] == ReplaceChar(platform, '/', '_');
    ReplaceRoundTrip(platform, '/', '_');
  }

  /** Source lines 209-214: `docker pull`, then `--platform <p>` only for a
      non-empty platform, then the image. */
  function PullArgs(platform: string, image: string): (args: seq<string>)
    ensures |args| == (if platform == "" then 3 else 5)
    ensures args[..2] == ["docker", "pull"]
    ensures args[|args| - 1] == image
    ensures platform != "" ==> args[2] == "--platform" && args[3] == platform
  {
    ["docker", "pull"] + (if platform != "" then ["--platform", platform] else []) + [image]
  }

  /** The two argument lists the pull can take, written out. */
  lemma PullArgsShape(platform: string, image: string)
    ensures platform == "" ==> PullArgs(platform, image) == ["docker", "pull", image]
    ensures platform != "" ==> PullArgs(platform, image) == ["docker", "pull", "--platform", platform, image]
  {
  }
}
