/**
 What both passes over the image list share: which lines name an image at all,
 what one pass reads off an image reference, and the rule that picks the namespace
 out of the `/`-separated parts of a reference.
 */
module ImageList {
  import opened Text

  /** One image reference as a pass reads it: the repository name (the last path
      segment up to its first `:`) and the namespace. */
  datatype Occurrence = Occurrence(name: string, namespace: string)

  /** A raw line of the image list names an image: after `strip()` it is not
      empty and does not start with `#`. Both passes skip every other line. */
  predicate IsEntry(raw: string) {
    var line := Strip(raw);
    line != [] && line[0] != '#'
  }

  /** The stripped text of an entry line still holds a word, so the source's
      `line.split()[-1]` has something to return. */
  lemma EntryHasWord(raw: string)
    requires IsEntry(raw)
    ensures !AllSpace(Strip(raw))
  {
    assert !IsSpace(Strip(raw)[0]);
  }

  /** A line is skipped exactly when it is blank (all whitespace) or its
      stripped text starts with `#`. */
  lemma SkippedLine(raw: string)
    ensures !IsEntry(raw) <==> AllSpace(raw) || Strip(raw)[0] == '#'
  {
  }

  /** The namespace rule of both passes: the middle part of a three-part reference,
      the first part of a two-part reference, and nothing otherwise. */
  function NamespaceOf(parts: seq<string>): string {
    if |parts| == 3 then parts[1]
    else if |parts| == 2 then parts[0]
    else ""
  }

  /** The namespace read from a split holds no separator. */
  lemma NamespaceNoSeparator(image: string, sep: char)
    ensures sep !in NamespaceOf(Split(image, sep))
  {
    var parts := Split(image, sep);
    if |parts| == 3 {
      assert sep !in parts[1];
    } else if |parts| == 2 {
      assert sep !in parts[0];
    }
  }

  /** The namespace read from a split holds neither the separator nor any
      character the split string lacks. */
  lemma NamespaceKeepsOut(image: string, sep: char, c: char)
    requires c !in image
    ensures var ns := NamespaceOf(Split(image, sep)); sep !in ns && c !in ns
  {
    SplitKeepsOut(image, sep, c);
  }

  /** A reference of two `/`-separated parts has the text before the `/` as
      namespace and is rebuilt as namespace, `/`, last segment. */
  lemma NamespaceOfTwoParts(image: string)
    requires |Split(image, '/')| == 2
    ensures var ns := NamespaceOf(Split(image, '/'));
      ns == BeforeFirst(image, '/') && image == ns + "/" + AfterLast(image, '/')
  {
    var parts := Split(image, '/');
    JoinSplit(image, '/');
    assert |parts| == 2;
    assert Join(parts[1..], '/') == parts[1];
  }

  /** A reference of three `/`-separated parts has the text between the two `/` as
      namespace and is rebuilt as host, `/`, namespace, `/`, last segment. */
  lemma NamespaceOfThreeParts(image: string)
    requires |Split(image, '/')| == 3
    ensures var ns := NamespaceOf(Split(image, '/'));
      var host := BeforeFirst(image, '/');
      && ns == BeforeFirst(image[|host| + 1..], '/')
      && image == host + "/" + ns + "/" + AfterLast(image, '/')
  {
    var parts := Split(image, '/');
    assert |parts| == 3;
    SplitFirst(image, '/');
    var rest := image[|parts[0]| + 1..];
    assert Split(rest, '/') == parts[1..];
    assert BeforeFirst(rest, '/') == parts[1];
    JoinThree(parts, '/');
    JoinSplit(image, '/');
  }

  lemma JoinThree(parts: seq<string>, sep: char)
    requires |parts| == 3
    ensures Join(parts, sep) == parts[0] + [sep] + parts[1] + [sep] + parts[2]
  {
    assert parts[1..][1..] == parts[2..];
    assert Join(parts[2..], sep) == parts[2];
  }
}
