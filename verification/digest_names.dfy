/**
 When two lines that read the same name under different namespaces get
 different destinations, and where the source's reading of a digest breaks this.

 The detection pass cuts the digest off before it reads the name, so
 `nginx@sha256:1` is read as `nginx`. The rewrite pass, as written, reads the
 name before cutting the digest off and so reads `nginx@sha256`, a name the
 detection pass never flags. A file that holds the same repository by digest
 under two namespaces is flagged, yet neither line gets its namespace prefix,
 and both are pushed to the same destination.

 The corrected leaf (`Process.Leaf`) reads name and namespace as the detection
 pass does; with it, two lines that read the same name under different
 namespaces never share a destination, given the same platform and namespaces
 without `:`. The source's own leaf keeps them apart too as long as neither
 image holds `@`, and both passes read a tag followed by
 a digest (`ns/name:tag@sha256:...`) alike.
 */
module DigestNames {
  import opened Text
  import opened ImageList
  import opened Platform
  import opened Preprocess
  import opened Process
  import opened Collect

  // ---------------------------------------------------------------------------
  // The counterexample

  /** A piece of an image reference holding no whitespace, `/`, `@` or `-`.
      The `-` is excluded only so that no line of this family can hold the
      `--platform` flag; the lemmas below therefore do not cover names such as
      `kube-state-metrics`, although detection reads those the same way. */
  predicate Token(s: string) {
    NoSpace(s) && '/' !in s && '@' !in s && '-' !in s
  }

  /** A name, namespace or digest algorithm: a non-empty token without `:` that
      does not start with `#` (so a line that starts with it is no comment). */
  predicate Word(s: string) {
    s != [] && s[0] != '#' && Token(s) && ':' !in s
  }

  /** `name@alg:hex`: an image pinned by digest, with no namespace and no tag. */
  function DigestRef(name: string, alg: string, hex: string): string {
    name + "@" + alg + ":" + hex
  }

  lemma DigestRefNoSpace(name: string, alg: string, hex: string)
    requires NoSpace(name) && NoSpace(alg) && NoSpace(hex)
    ensures NoSpace(DigestRef(name, alg, hex))
  {
    NoSpaceAppend(name, "@");
    NoSpaceAppend(name + "@", alg);
    NoSpaceAppend(name + "@" + alg, ":");
    NoSpaceAppend(name + "@" + alg + ":", hex);
  }

  /** A line that is one word reads as that word in both passes. */
  lemma WordLine(line: string)
    requires line != [] && NoSpace(line)
    ensures !AllSpace(line) && LastWord(line) == line
  {
    LastWordAfter([], line);
    assert [] + line == line;
  }

  /** A one-word line is an image line unless it starts with `#`. */
  lemma WordLineEntry(line: string)
    requires line != [] && NoSpace(line)
    ensures Strip(line) == line
    ensures IsEntry(line) <==> line[0] != '#'
  {
    StripNoSpace(line);
  }

  /** A one-word image line is read by the detection pass from the word itself. */
  lemma WordLineRead(line: string)
    requires line != [] && NoSpace(line) && line[0] != '#'
    ensures IsEntry(line) && !AllSpace(line) && EntryOf(line) == Some(DetectionRef(line))
  {
    WordLineEntry(line);
    WordLine(line);
  }

  /** `name@alg:hex` is one word without `/` or `-`. */
  lemma DigestRefShape(name: string, alg: string, hex: string)
    requires Word(name) && Word(alg) && Token(hex)
    ensures var line := DigestRef(name, alg, hex);
      line != [] && NoSpace(line) && !AllSpace(line) && '/' !in line && '-' !in line
  {
    DigestRefNoSpace(name, alg, hex);
    WordLine(DigestRef(name, alg, hex));
  }

  /** The detection pass reads `name@alg:hex` as `name` with no namespace. */
  lemma DetectDigestRef(name: string, alg: string, hex: string)
    requires Word(name) && Word(alg) && Token(hex)
    ensures var line := DigestRef(name, alg, hex);
      !AllSpace(line) && DigestFree(line) == name && DetectionRef(line) == Occurrence(name, "")
  {
    var line := DigestRef(name, alg, hex);
    DigestRefShape(name, alg, hex);
    WordLine(line);
    DigestRefBeforeAt(name, alg, hex);
    DetectPlain(line, name);
  }

  /** A line whose digest-free image is a bare name is read as that name with no namespace. */
  lemma DetectPlain(line: string, name: string)
    requires !AllSpace(line) && DigestFree(line) == name
    requires '/' !in name && ':' !in name
    ensures DetectionRef(line) == Occurrence(name, "")
  {
    BareName(name);
    DetectionRefOf(line, name);
  }

  /** A bare name is its own last segment and name, with no namespace. */
  lemma BareName(name: string)
    requires '/' !in name && ':' !in name
    ensures BeforeFirst(AfterLast(name, '/'), ':') == name
    ensures NamespaceOf(Split(name, '/')) == ""
  {
    var tail := AfterLast(name, '/');
    assert tail == name;
    assert BeforeFirst(tail, ':') == name;
    SplitWhole(name, '/');
    assert NamespaceOf([name]) == "";
  }

  /** The first `@` of `name@alg:hex` is the one after the name. */
  lemma DigestRefBeforeAt(name: string, alg: string, hex: string)
    requires '@' !in name
    ensures BeforeFirst(DigestRef(name, alg, hex), '@') == name
  {
    var line := DigestRef(name, alg, hex);
    assert line == name + ("@" + alg + ":" + hex);
    assert line[..|name|] == name;
    assert line[|name|] == '@';
    BeforeFirstAt(line, '@', |name|);
  }

  /** The first `@` of `ns/name@alg:hex` is the one after the name. */
  lemma NamespacedBeforeAt(ns: string, name: string, alg: string, hex: string)
    requires '@' !in ns && '@' !in name
    ensures BeforeFirst(ns + "/" + DigestRef(name, alg, hex), '@') == ns + "/" + name
  {
    var head := ns + "/" + name;
    var line := ns + "/" + DigestRef(name, alg, hex);
    assert line == head + ("@" + alg + ":" + hex);
    assert line[..|head|] == head;
    assert line[|head|] == '@';
    assert '@' !in head;
    BeforeFirstAt(line, '@', |head|);
  }

  /** The rewrite pass, as written, reads `name@alg:hex` as `name@alg` with no
      namespace, and finds no platform in it. */
  lemma RewriteDigestRef(name: string, alg: string, hex: string)
    requires Word(name) && Word(alg) && Token(hex)
    ensures var line := DigestRef(name, alg, hex);
      && RewriteRef(line) == Occurrence(name + "@" + alg, "")
      && AfterLast(line, '/') == line
      && PlatformOf(line) == ""
  {
    var line := DigestRef(name, alg, hex);
    DigestRefShape(name, alg, hex);
    SplitWhole(line, '/');
    assert AfterLast(line, '/') == line;
    DigestRefBeforeColon(name, alg, hex);
    RewriteRefOf(line);
    NoFlagNoPlatform(line);
  }

  /** The first `:` of `name@alg:hex` is the one before the digest. */
  lemma DigestRefBeforeColon(name: string, alg: string, hex: string)
    requires ':' !in name && ':' !in alg
    ensures BeforeFirst(DigestRef(name, alg, hex), ':') == name + "@" + alg
  {
    var line := DigestRef(name, alg, hex);
    var head := name + "@" + alg;
    assert line == head + (":" + hex);
    assert line[..|head|] == head;
    assert line[|head|] == ':';
    assert ':' !in head;
    BeforeFirstAt(line, ':', |head|);
  }

  /** `ns/name@alg:hex` is one word without `-`. */
  lemma NamespacedShape(ns: string, name: string, alg: string, hex: string)
    requires Word(ns) && Word(name) && Word(alg) && Token(hex)
    ensures var line := ns + "/" + DigestRef(name, alg, hex);
      line != [] && NoSpace(line) && !AllSpace(line) && '-' !in line
  {
    var tail := DigestRef(name, alg, hex);
    DigestRefShape(name, alg, hex);
    NoSpaceAppend(ns, "/");
    NoSpaceAppend(ns + "/", tail);
    WordLine(ns + "/" + tail);
  }

  /** The detection pass reads `ns/name@alg:hex` as `name` in namespace `ns`. */
  lemma DetectNamespaced(ns: string, name: string, alg: string, hex: string)
    requires Word(ns) && Word(name) && Word(alg) && Token(hex)
    ensures var line := ns + "/" + DigestRef(name, alg, hex);
      && !AllSpace(line)
      && DigestFree(line) == ns + "/" + name
      && DetectionRef(line) == Occurrence(name, ns)
      && AfterLast(DigestFree(line), '/') == name
  {
    var line := ns + "/" + DigestRef(name, alg, hex);
    var image := ns + "/" + name;
    NamespacedShape(ns, name, alg, hex);
    WordLine(line);
    NamespacedBeforeAt(ns, name, alg, hex);
    DetectionRefOf(line, image);
    SplitWhole(name, '/');
    assert image == ns + ['/'] + name;
    SplitAtSeparator(ns, name, '/');
    assert Split(image, '/') == [ns, name];
    assert AfterLast(image, '/') == name;
    assert BeforeFirst(name, ':') == name;
  }

  /** The rewrite pass, as written, reads `ns/name@alg:hex` as `name@alg` in
      namespace `ns`, and finds no platform in it. */
  lemma RewriteNamespaced(ns: string, name: string, alg: string, hex: string)
    requires Word(ns) && Word(name) && Word(alg) && Token(hex)
    ensures var tail := DigestRef(name, alg, hex);
      var line := ns + "/" + tail;
      && RewriteRef(line) == Occurrence(name + "@" + alg, ns)
      && AfterLast(line, '/') == tail
      && PlatformOf(line) == ""
  {
    var tail := DigestRef(name, alg, hex);
    var line := ns + "/" + tail;
    NamespacedShape(ns, name, alg, hex);
    RewriteDigestRef(name, alg, hex);
    DigestRefShape(name, alg, hex);
    SplitWhole(tail, '/');
    assert line == ns + ['/'] + tail;
    SplitAtSeparator(ns, tail, '/');
    NoFlagNoPlatform(line);
  }

  /** As written, `name@alg:hex` is pushed to the leaf `name` unless `name@alg` is flagged. */
  lemma LeafAsWrittenDigestRef(name: string, alg: string, hex: string, duplicates: set<string>)
    requires Word(name) && Word(alg) && Token(hex)
    requires name + "@" + alg !in duplicates
    ensures var line := DigestRef(name, alg, hex);
      !AllSpace(line) && LeafAsWritten(line, duplicates) == name
  {
    var line := DigestRef(name, alg, hex);
    DigestRefShape(name, alg, hex);
    RewriteDigestRef(name, alg, hex);
    DigestRefBeforeAt(name, alg, hex);
    LeafAsWrittenOfWord(line, duplicates, Occurrence(name + "@" + alg, ""), name);
  }

  /** As written, `ns/name@alg:hex` is pushed to the leaf `name` unless `name@alg` is flagged. */
  lemma LeafAsWrittenNamespaced(ns: string, name: string, alg: string, hex: string, duplicates: set<string>)
    requires Word(ns) && Word(name) && Word(alg) && Token(hex)
    requires name + "@" + alg !in duplicates
    ensures var line := ns + "/" + DigestRef(name, alg, hex);
      !AllSpace(line) && LeafAsWritten(line, duplicates) == name
  {
    var tail := DigestRef(name, alg, hex);
    var line := ns + "/" + tail;
    NamespacedShape(ns, name, alg, hex);
    RewriteNamespaced(ns, name, alg, hex);
    DigestRefBeforeAt(name, alg, hex);
    LeafAsWrittenOfWord(line, duplicates, Occurrence(name + "@" + alg, ns), name);
  }

  /** The source's leaf for a one-word line without `-`, from the name it reads
      and the segment it keeps, when that name is not flagged. */
  lemma LeafAsWrittenOfWord(line: string, duplicates: set<string>, o: Occurrence, tail: string)
    requires line != [] && NoSpace(line) && '-' !in line
    requires RewriteRef(line) == o && BeforeFirst(AfterLast(line, '/'), '@') == tail
    requires o.name !in duplicates
    ensures !AllSpace(line) && LeafAsWritten(line, duplicates) == tail
  {
    WordLine(line);
    NoFlagNoPlatform(line);
    LeafAsWrittenOf(line, duplicates);
    assert NamespacePrefix(o.name, o.namespace, duplicates) == [];
    assert PlatformPrefix(PlatformOf(line)) == [];
    assert [] + [] + tail == tail;
  }

  /** Corrected, `name@alg:hex` is pushed to the leaf `name`: it has no namespace to add. */
  lemma LeafDigestRef(name: string, alg: string, hex: string, duplicates: set<string>)
    requires Word(name) && Word(alg) && Token(hex)
    ensures var line := DigestRef(name, alg, hex);
      !AllSpace(line) && Leaf(line, duplicates) == name
  {
    var line := DigestRef(name, alg, hex);
    DigestRefShape(name, alg, hex);
    DetectDigestRef(name, alg, hex);
    RewriteDigestRef(name, alg, hex);
    SplitWhole(name, '/');
    LeafParts(line, duplicates);
    assert NamespacePrefix(name, "", duplicates) == "";
    assert PlatformPrefix(PlatformOf(line)) == "";
  }

  /** Corrected, `ns/name@alg:hex` with `name` flagged is pushed to the leaf `ns_name`. */
  lemma LeafNamespaced(ns: string, name: string, alg: string, hex: string, duplicates: set<string>)
    requires Word(ns) && Word(name) && Word(alg) && Token(hex)
    requires name in duplicates
    ensures var line := ns + "/" + DigestRef(name, alg, hex);
      !AllSpace(line) && Leaf(line, duplicates) == ns + "_" + name
  {
    var line := ns + "/" + DigestRef(name, alg, hex);
    NamespacedShape(ns, name, alg, hex);
    DetectNamespaced(ns, name, alg, hex);
    RewriteNamespaced(ns, name, alg, hex);
    LeafParts(line, duplicates);
    var pp := PlatformPrefix(PlatformOf(line));
    var nsp := NamespacePrefix(name, ns, duplicates);
    var nameTag := AfterLast(DigestFree(line), '/');
    assert pp == [] && nsp == ns + "_" && nameTag == name;
    assert Leaf(line, duplicates) == pp + nsp + nameTag;
    assert pp + nsp == nsp;
  }

  /** `name@alg:hex` next to `ns/name@alg:hex2`: two image lines that the
      detection pass reads as `name` under two namespaces, so it flags `name`. */
  lemma DigestPairFlagged(ns: string, name: string, alg: string, hex1: string, hex2: string)
    requires Word(ns) && Word(name) && Word(alg) && Token(hex1) && Token(hex2)
    ensures var first := DigestRef(name, alg, hex1);
      var second := ns + "/" + DigestRef(name, alg, hex2);
      && IsEntry(first) && IsEntry(second)
      && PreprocessImages([first, second]).duplicates == {name}
  {
    var first := DigestRef(name, alg, hex1);
    var second := ns + "/" + DigestRef(name, alg, hex2);
    DigestRefShape(name, alg, hex1);
    NamespacedShape(ns, name, alg, hex2);
    assert first[0] == name[0] && second[0] == ns[0];
    WordLineRead(first);
    WordLineRead(second);
    DetectDigestRef(name, alg, hex1);
    DetectNamespaced(ns, name, alg, hex2);
    DetectionOfPair(first, second, name, ns);
  }

  /** Source lines 158-162 against 238-251: although the pair is flagged, as
      written neither line gets a namespace prefix and both are pushed to the
      same leaf, `name`. */
  lemma DigestOnlyCollision(ns: string, name: string, alg: string, hex1: string, hex2: string)
    requires Word(ns) && Word(name) && Word(alg) && Token(hex1) && Token(hex2)
    ensures var first := DigestRef(name, alg, hex1);
      var second := ns + "/" + DigestRef(name, alg, hex2);
      var duplicates := PreprocessImages([first, second]).duplicates;
      && duplicates == {name}
      && !AllSpace(first) && !AllSpace(second)
      && LeafAsWritten(first, duplicates) == name
      && LeafAsWritten(second, duplicates) == name
  {
    var first := DigestRef(name, alg, hex1);
    var second := ns + "/" + DigestRef(name, alg, hex2);
    DigestPairFlagged(ns, name, alg, hex1, hex2);
    AsWrittenLeaves(ns, name, alg, hex1, hex2, PreprocessImages([first, second]).duplicates);
  }

  lemma AsWrittenLeaves(ns: string, name: string, alg: string, hex1: string, hex2: string, duplicates: set<string>)
    requires Word(ns) && Word(name) && Word(alg) && Token(hex1) && Token(hex2)
    requires duplicates == {name}
    ensures var first := DigestRef(name, alg, hex1);
      var second := ns + "/" + DigestRef(name, alg, hex2);
      && !AllSpace(first) && !AllSpace(second)
      && LeafAsWritten(first, duplicates) == name
      && LeafAsWritten(second, duplicates) == name
  {
    assert |name + "@" + alg| > |name|;
    LeafAsWrittenDigestRef(name, alg, hex1, duplicates);
    LeafAsWrittenNamespaced(ns, name, alg, hex2, duplicates);
  }

  /** The corrected leaf keeps the same pair apart: the namespaced line is
      pushed to `ns_name`, the other to `name`. */
  lemma DigestPairSeparated(ns: string, name: string, alg: string, hex1: string, hex2: string)
    requires Word(ns) && Word(name) && Word(alg) && Token(hex1) && Token(hex2)
    ensures var first := DigestRef(name, alg, hex1);
      var second := ns + "/" + DigestRef(name, alg, hex2);
      var duplicates := PreprocessImages([first, second]).duplicates;
      && !AllSpace(first) && !AllSpace(second)
      && Leaf(first, duplicates) == name
      && Leaf(second, duplicates) == ns + "_" + name
  {
    var first := DigestRef(name, alg, hex1);
    var second := ns + "/" + DigestRef(name, alg, hex2);
    DigestPairFlagged(ns, name, alg, hex1, hex2);
    var d := PreprocessImages([first, second]).duplicates;
    LeafDigestRef(name, alg, hex1, d);
    LeafNamespaced(ns, name, alg, hex2, d);
  }

  /** The whole run over the pair, as written: both lines are pushed to
      `<registry>/<target>/name`. */
  lemma MirrorDigestCollision(ns: string, name: string, alg: string, hex1: string, hex2: string, registry: string, target: string)
    requires Word(ns) && Word(name) && Word(alg) && Token(hex1) && Token(hex2)
    ensures var m := Mirror([DigestRef(name, alg, hex1), ns + "/" + DigestRef(name, alg, hex2)], registry, target);
      var dest := registry + "/" + target + "/";
      |m| == 2 && m[0].destination == dest + name && m[1].destination == dest + name
  {
    var first := DigestRef(name, alg, hex1);
    var second := ns + "/" + DigestRef(name, alg, hex2);
    PairLines(ns, name, alg, hex1, hex2);
    AsWrittenPairSegments(ns, name, alg, hex1, hex2);
    MirrorPair(first, second, registry, target, AsWritten, name, name);
  }

  /** The whole run over the pair, corrected: the lines are pushed to
      `<registry>/<target>/name` and `<registry>/<target>/ns_name`. */
  lemma MirrorDigestSeparated(ns: string, name: string, alg: string, hex1: string, hex2: string, registry: string, target: string)
    requires Word(ns) && Word(name) && Word(alg) && Token(hex1) && Token(hex2)
    ensures var m := MirrorCorrected([DigestRef(name, alg, hex1), ns + "/" + DigestRef(name, alg, hex2)], registry, target);
      var dest := registry + "/" + target + "/";
      |m| == 2 && m[0].destination == dest + name && m[1].destination == dest + (Key(ns) + name)
  {
    var first := DigestRef(name, alg, hex1);
    var second := ns + "/" + DigestRef(name, alg, hex2);
    PairLines(ns, name, alg, hex1, hex2);
    CorrectedPairSegments(ns, name, alg, hex1, hex2);
    MirrorPair(first, second, registry, target, Corrected, name, Key(ns) + name);
  }

  /** Both lines of the pair are image lines that strip to themselves. */
  lemma PairLines(ns: string, name: string, alg: string, hex1: string, hex2: string)
    requires Word(ns) && Word(name) && Word(alg) && Token(hex1) && Token(hex2)
    ensures var first := DigestRef(name, alg, hex1);
      var second := ns + "/" + DigestRef(name, alg, hex2);
      IsEntry(first) && IsEntry(second) && Strip(first) == first && Strip(second) == second
  {
    var first := DigestRef(name, alg, hex1);
    var second := ns + "/" + DigestRef(name, alg, hex2);
    DigestRefShape(name, alg, hex1);
    NamespacedShape(ns, name, alg, hex2);
    assert first[0] == name[0] && second[0] == ns[0];
    WordLineEntry(first);
    WordLineEntry(second);
  }

  /** A file of two image lines that strip to themselves yields their two transfers. */
  lemma PairTransfers(first: string, second: string, duplicates: set<string>, registry: string, target: string, reading: Reading)
    requires IsEntry(first) && IsEntry(second) && Strip(first) == first && Strip(second) == second
    ensures !AllSpace(first) && !AllSpace(second)
    ensures var ts := ProcessImages([first, second], duplicates, registry, target, reading);
      |ts| == 2 && ts[0] == RewriteLine(first, duplicates, registry, target, reading)
      && ts[1] == RewriteLine(second, duplicates, registry, target, reading)
  {
    EntryLineAlone(first, duplicates, registry, target, reading);
    EntryLineAlone(second, duplicates, registry, target, reading);
    ProcessPair(first, second, duplicates, registry, target, reading);
  }

  /** The destinations of a file of two image lines that strip to themselves. */
  lemma PairDestinations(first: string, second: string, duplicates: set<string>, registry: string, target: string,
                         reading: Reading, leaf1: string, leaf2: string)
    requires IsEntry(first) && IsEntry(second) && Strip(first) == first && Strip(second) == second
    requires !AllSpace(first) && !AllSpace(second)
    requires Segment(reading, first, duplicates) == leaf1 && Segment(reading, second, duplicates) == leaf2
    ensures var ts := ProcessImages([first, second], duplicates, registry, target, reading);
      |ts| == 2 && ts[0].destination == registry + "/" + target + "/" + leaf1
      && ts[1].destination == registry + "/" + target + "/" + leaf2
  {
    PairTransfers(first, second, duplicates, registry, target, reading);
    DestinationOf(first, duplicates, registry, target, reading, leaf1);
    DestinationOf(second, duplicates, registry, target, reading, leaf2);
  }

  /** The as-written segments of the pair, as `Segment` gives them. */
  lemma AsWrittenPairSegments(ns: string, name: string, alg: string, hex1: string, hex2: string)
    requires Word(ns) && Word(name) && Word(alg) && Token(hex1) && Token(hex2)
    ensures var first := DigestRef(name, alg, hex1);
      var second := ns + "/" + DigestRef(name, alg, hex2);
      var d := PreprocessImages([first, second]).duplicates;
      && !AllSpace(first) && !AllSpace(second)
      && Segment(AsWritten, first, d) == name && Segment(AsWritten, second, d) == name
  {
    DigestOnlyCollision(ns, name, alg, hex1, hex2);
  }

  /** The corrected segments of the pair, as `Segment` gives them. */
  lemma CorrectedPairSegments(ns: string, name: string, alg: string, hex1: string, hex2: string)
    requires Word(ns) && Word(name) && Word(alg) && Token(hex1) && Token(hex2)
    ensures var first := DigestRef(name, alg, hex1);
      var second := ns + "/" + DigestRef(name, alg, hex2);
      var d := PreprocessImages([first, second]).duplicates;
      && !AllSpace(first) && !AllSpace(second)
      && Segment(Corrected, first, d) == name && Segment(Corrected, second, d) == Key(ns) + name
  {
    DigestPairSeparated(ns, name, alg, hex1, hex2);
  }

  /** The whole run over a file of two image lines that strip to themselves. */
  lemma MirrorPair(first: string, second: string, registry: string, target: string, reading: Reading, leaf1: string, leaf2: string)
    requires IsEntry(first) && IsEntry(second) && Strip(first) == first && Strip(second) == second
    requires !AllSpace(first) && !AllSpace(second)
    requires var d := PreprocessImages([first, second]).duplicates;
      Segment(reading, first, d) == leaf1 && Segment(reading, second, d) == leaf2
    ensures var m := ProcessImages([first, second], PreprocessImages([first, second]).duplicates, registry, target, reading);
      |m| == 2 && m[0].destination == registry + "/" + target + "/" + leaf1
      && m[1].destination == registry + "/" + target + "/" + leaf2
  {
    PairDestinations(first, second, PreprocessImages([first, second]).duplicates, registry, target, reading, leaf1, leaf2);
  }

  /** The detection pass over two entry lines that read one name under the empty
      namespace and under `ns` flags exactly that name. */
  lemma DetectionOfPair(first: string, second: string, name: string, ns: string)
    requires EntryOf(first) == Some(Occurrence(name, ""))
    requires EntryOf(second) == Some(Occurrence(name, ns))
    requires ns != ""
    ensures PreprocessImages([first, second]).duplicates == {name}
  {
    var lines := [first, second];
    PreprocessIsScan(lines);
    EntriesAt(lines, 0);
    EntriesAt(lines, 1);
    ScanPair(Entries(lines), Occurrence(name, ""), Occurrence(name, ns));
  }

  /** Two occurrences are flagged exactly when they share a name and differ in namespace. */
  lemma ScanPair(es: seq<Option<Occurrence>>, a: Occurrence, b: Occurrence)
    requires |es| == 2 && es[0] == Some(a) && es[1] == Some(b)
    ensures Scan(es).duplicates
      == if a.name == b.name && a.namespace != b.namespace then {a.name} else {}
  {
    assert es[..1] == [Some(a)];
    assert es[..1][..0] == [];
    assert Scan([Some(a)]) == Record(Initial, a.name, Key(a.namespace));
    KeyInjective(a.namespace, b.namespace);
  }

  // ---------------------------------------------------------------------------
  // The corrected leaf keeps namespaces apart

  /** Different `:`-free prefixes in front of the same name, each followed by
      nothing or by a `:` tag, never give the same string. */
  lemma {:induction false} PrefixedNamesDiffer(p1: string, p2: string, name: string, nameTag1: string, nameTag2: string)
    requires |p1| < |p2|
    requires ':' !in p2 && ':' !in name
    requires |name| <= |nameTag1| && nameTag1[..|name|] == name && (|name| == |nameTag1| || nameTag1[|name|] == ':')
    requires |name| <= |nameTag2| && nameTag2[..|name|] == name && (|name| == |nameTag2| || nameTag2[|name|] == ':')
    ensures p1 + nameTag1 != p2 + nameTag2
  {
    var s1 := p1 + nameTag1;
    var s2 := p2 + nameTag2;
    var k := |p1| + |name|;
    if |s1| == |s2| {
      assert |nameTag1| > |name|;
      assert s1[k] == ':';
      if k < |p2| {
        assert s2[k] == p2[k];
      } else {
        assert s2[k] == nameTag2[k - |p2|] == name[k - |p2|];
      }
    }
  }

  /** The same with the prefixes in either order and a shared platform prefix in front. */
  lemma DistinctLeaves(platformPrefix: string, p1: string, p2: string, name: string, nameTag1: string, nameTag2: string)
    requires p1 != p2
    requires ':' !in p1 && ':' !in p2 && ':' !in name
    requires |name| <= |nameTag1| && nameTag1[..|name|] == name && (|name| == |nameTag1| || nameTag1[|name|] == ':')
    requires |name| <= |nameTag2| && nameTag2[..|name|] == name && (|name| == |nameTag2| || nameTag2[|name|] == ':')
    ensures platformPrefix + p1 + nameTag1 != platformPrefix + p2 + nameTag2
  {
    if |p1| < |p2| {
      PrefixedNamesDiffer(p1, p2, name, nameTag1, nameTag2);
    } else if |p2| < |p1| {
      PrefixedNamesDiffer(p2, p1, name, nameTag2, nameTag1);
    } else {
      var s1 := p1 + nameTag1;
      var s2 := p2 + nameTag2;
      assert s1[..|p1|] == p1 && s2[..|p2|] == p2;
    }
    var s1 := p1 + nameTag1;
    var s2 := p2 + nameTag2;
    assert (platformPrefix + p1 + nameTag1)[|platformPrefix|..] == s1;
    assert (platformPrefix + p2 + nameTag2)[|platformPrefix|..] == s2;
  }

  /** The corrected leaf is platform prefix, namespace prefix and the digest-free
      name tag, and the name is the name tag up to its first `:`. */
  lemma LeafParts(line: string, duplicates: set<string>)
    requires !AllSpace(line)
    ensures var o := DetectionRef(line);
      var nameTag := AfterLast(DigestFree(line), '/');
      && Leaf(line, duplicates) == PlatformPrefix(PlatformOf(line)) + NamespacePrefix(o.name, o.namespace, duplicates) + nameTag
      && |o.name| <= |nameTag| && nameTag[..|o.name|] == o.name
      && (|o.name| == |nameTag| || nameTag[|o.name|] == ':')
  {
  }

  /** Two lines whose names agree and are flagged, whose namespaces differ and
      hold no `:`, and whose platforms agree, get different corrected leaves. */
  lemma FlaggedLeavesDiffer(li: string, lj: string, duplicates: set<string>)
    requires !AllSpace(li) && !AllSpace(lj)
    requires DetectionRef(li).name == DetectionRef(lj).name
    requires DetectionRef(li).name in duplicates
    requires DetectionRef(li).namespace != DetectionRef(lj).namespace
    requires ':' !in DetectionRef(li).namespace && ':' !in DetectionRef(lj).namespace
    requires PlatformOf(li) == PlatformOf(lj)
    ensures Leaf(li, duplicates) != Leaf(lj, duplicates)
  {
    var oi := DetectionRef(li);
    var oj := DetectionRef(lj);
    var pi := NamespacePrefix(oi.name, oi.namespace, duplicates);
    var pj := NamespacePrefix(oj.name, oj.namespace, duplicates);
    FlaggedPrefixesDiffer(oi.name, oi.namespace, oj.namespace, duplicates);
    LeafParts(li, duplicates);
    LeafParts(lj, duplicates);
    DistinctLeaves(PlatformPrefix(PlatformOf(li)), pi, pj, oi.name,
      AfterLast(DigestFree(li), '/'), AfterLast(DigestFree(lj), '/'));
  }

  /** A flagged name gets different `:`-free namespace prefixes under different `:`-free namespaces. */
  lemma FlaggedPrefixesDiffer(name: string, ns1: string, ns2: string, duplicates: set<string>)
    requires name in duplicates && ns1 != ns2
    requires ':' !in ns1 && ':' !in ns2
    ensures var p1 := NamespacePrefix(name, ns1, duplicates);
      var p2 := NamespacePrefix(name, ns2, duplicates);
      p1 != p2 && ':' !in p1 && ':' !in p2
  {
    KeyInjective(ns1, ns2);
  }

  /** A name read under two different namespaces somewhere in the file is flagged. */
  lemma TwoNamespacesFlagged(lines: seq<string>, i: nat, j: nat)
    requires i < |lines| && j < |lines| && EntryOf(lines[i]).Some? && EntryOf(lines[j]).Some?
    requires EntryOf(lines[i]).value.name == EntryOf(lines[j]).value.name
    requires EntryOf(lines[i]).value.namespace != EntryOf(lines[j]).value.namespace
    ensures EntryOf(lines[i]).value.name in PreprocessImages(lines).duplicates
  {
    var oi := EntryOf(lines[i]).value;
    var oj := EntryOf(lines[j]).value;
    EntriesAt(lines, i);
    EntriesAt(lines, j);
    assert Seen(Entries(lines), oi.name, oi.namespace);
    assert Seen(Entries(lines), oi.name, oj.namespace);
    DuplicatesAreAmbiguous(lines, oi.name);
  }

  /** Two lines of a file that read the same name under different namespaces,
      with the same platform and namespaces free of `:`, get different
      destinations from the corrected leaf. */
  lemma CorrectedSeparatesNamespaces(lines: seq<string>, i: nat, j: nat)
    requires i < |lines| && j < |lines| && IsEntry(lines[i]) && IsEntry(lines[j])
    requires EntryOf(lines[i]).value.name == EntryOf(lines[j]).value.name
    requires EntryOf(lines[i]).value.namespace != EntryOf(lines[j]).value.namespace
    requires ':' !in EntryOf(lines[i]).value.namespace && ':' !in EntryOf(lines[j]).value.namespace
    requires PlatformOf(Strip(lines[i])) == PlatformOf(Strip(lines[j]))
    ensures var duplicates := PreprocessImages(lines).duplicates;
      Leaf(Strip(lines[i]), duplicates) != Leaf(Strip(lines[j]), duplicates)
  {
    EntryIsDetection(lines[i]);
    EntryIsDetection(lines[j]);
    TwoNamespacesFlagged(lines, i, j);
    FlaggedLeavesDiffer(Strip(lines[i]), Strip(lines[j]), PreprocessImages(lines).duplicates);
  }

  /** Two lines of a file that read the same name under different namespaces,
      with the same platform, namespaces free of `:` and images without `@`,
      get different destinations from the source's own leaf too. */
  lemma AsWrittenSeparatesNamespaces(lines: seq<string>, i: nat, j: nat)
    requires i < |lines| && j < |lines| && IsEntry(lines[i]) && IsEntry(lines[j])
    requires EntryOf(lines[i]).value.name == EntryOf(lines[j]).value.name
    requires EntryOf(lines[i]).value.namespace != EntryOf(lines[j]).value.namespace
    requires ':' !in EntryOf(lines[i]).value.namespace && ':' !in EntryOf(lines[j]).value.namespace
    requires PlatformOf(Strip(lines[i])) == PlatformOf(Strip(lines[j]))
    requires '@' !in LastWord(Strip(lines[i])) && '@' !in LastWord(Strip(lines[j]))
    ensures var duplicates := PreprocessImages(lines).duplicates;
      LeafAsWritten(Strip(lines[i]), duplicates) != LeafAsWritten(Strip(lines[j]), duplicates)
  {
    var d := PreprocessImages(lines).duplicates;
    CorrectedSeparatesNamespaces(lines, i, j);
    LeafAgreesWithoutDigest(Strip(lines[i]), d);
    LeafAgreesWithoutDigest(Strip(lines[j]), d);
  }

  /** In the corrected run every line whose name the detection pass flagged, and
      whose namespace is not empty, carries its namespace prefix, digest or not. */
  lemma CorrectedPrefixesFlagged(lines: seq<string>, i: nat)
    requires i < |lines| && IsEntry(lines[i])
    requires EntryOf(lines[i]).value.name in PreprocessImages(lines).duplicates
    requires EntryOf(lines[i]).value.namespace != ""
    ensures var o := EntryOf(lines[i]).value;
      var leaf := Leaf(Strip(lines[i]), PreprocessImages(lines).duplicates);
      var pp := PlatformPrefix(PlatformOf(Strip(lines[i])));
      |pp| + |o.namespace| + 1 <= |leaf| && leaf[|pp|..|pp| + |o.namespace| + 1] == Key(o.namespace)
  {
    var d := PreprocessImages(lines).duplicates;
    LeafParts(Strip(lines[i]), d);
  }
  // ---------------------------------------------------------------------------
  // A tag before the digest

  /** `name:tag@alg:hex`: an image pinned by digest that also names a tag. */
  function TaggedRef(name: string, tag: string, alg: string, hex: string): string {
    name + ":" + tag + "@" + alg + ":" + hex
  }

  /** With a tag before the digest, `ns/name:tag@alg:hex`, both passes read
      `name` under `ns`: the rewrite pass reads the name up to the tag's `:`,
      which comes before the digest. */
  lemma TaggedDigestAgrees(ns: string, name: string, tag: string, alg: string, hex: string)
    requires NoSpace(ns) && NoSpace(name) && NoSpace(tag) && NoSpace(alg) && NoSpace(hex)
    requires '/' !in ns && '/' !in name && '/' !in tag && '/' !in alg && '/' !in hex
    requires '@' !in ns && '@' !in name && '@' !in tag && ':' !in name
    ensures var line := ns + "/" + TaggedRef(name, tag, alg, hex);
      && !AllSpace(line) && LastWord(line) == line
      && RewriteRef(line) == Occurrence(name, ns)
      && DetectionRef(line) == Occurrence(name, ns)
  {
    TaggedShape(ns, name, tag, alg, hex);
    WordLine(ns + "/" + TaggedRef(name, tag, alg, hex));
    TaggedDigestFree(ns, name, tag, alg, hex);
    DetectTagged(ns + "/" + TaggedRef(name, tag, alg, hex), ns, name, tag);
    TaggedRewrite(ns, name, tag, alg, hex);
  }

  /** A line whose digest-free image is `ns/name:tag` is read as `name` under `ns`. */
  lemma DetectTagged(line: string, ns: string, name: string, tag: string)
    requires !AllSpace(line) && DigestFree(line) == ns + "/" + (name + ":" + tag)
    requires '/' !in ns && '/' !in name && '/' !in tag && ':' !in name
    ensures DetectionRef(line) == Occurrence(name, ns)
  {
    DetectTwoParts(line, ns, name + ":" + tag);
    BeforeColon(name, tag);
  }

  /** Detection cuts `ns/name:tag@alg:hex` down to `ns/name:tag`. */
  lemma TaggedDigestFree(ns: string, name: string, tag: string, alg: string, hex: string)
    requires '@' !in ns && '@' !in name && '@' !in tag
    requires var line := ns + "/" + TaggedRef(name, tag, alg, hex);
      !AllSpace(line) && LastWord(line) == line
    ensures DigestFree(ns + "/" + TaggedRef(name, tag, alg, hex)) == ns + "/" + (name + ":" + tag)
  {
    TaggedBeforeAt(ns, name, tag, alg, hex);
  }

  /** A line whose digest-free image is `ns/x` is read with namespace `ns` and
      the name `x` up to its first `:`. */
  lemma DetectTwoParts(line: string, ns: string, x: string)
    requires !AllSpace(line) && DigestFree(line) == ns + "/" + x
    requires '/' !in ns && '/' !in x
    ensures DetectionRef(line) == Occurrence(BeforeFirst(x, ':'), ns)
  {
    DetectionRefOf(line, ns + "/" + x);
    TwoParts(ns, x);
  }

  /** The rewrite pass, as written, also reads `ns/name:tag@alg:hex` as `name` under `ns`. */
  lemma TaggedRewrite(ns: string, name: string, tag: string, alg: string, hex: string)
    requires '/' !in ns && '/' !in TaggedRef(name, tag, alg, hex) && ':' !in name
    ensures RewriteRef(ns + "/" + TaggedRef(name, tag, alg, hex)) == Occurrence(name, ns)
  {
    var rest := TaggedRef(name, tag, alg, hex);
    assert AfterLast(ns + "/" + rest, '/') == rest && NamespaceOf(Split(ns + "/" + rest, '/')) == ns by {
      TwoParts(ns, rest);
    }
    assert BeforeFirst(rest, ':') == name by {
      assert rest == name + ":" + (tag + "@" + alg + ":" + hex);
      BeforeColon(name, tag + "@" + alg + ":" + hex);
    }
    RewriteRefOf(ns + "/" + rest);
  }

  /** `ns/name:tag@alg:hex` is one word, and its pieces hold no `/`. */
  lemma TaggedShape(ns: string, name: string, tag: string, alg: string, hex: string)
    requires NoSpace(ns) && NoSpace(name) && NoSpace(tag) && NoSpace(alg) && NoSpace(hex)
    requires '/' !in name && '/' !in tag && '/' !in alg && '/' !in hex
    ensures var line := ns + "/" + TaggedRef(name, tag, alg, hex);
      line != [] && NoSpace(line) && '/' !in TaggedRef(name, tag, alg, hex) && '/' !in name + ":" + tag
  {
    NoSpaceAppend(name, ":");
    NoSpaceAppend(name + ":", tag);
    NoSpaceAppend(name + ":" + tag, "@");
    NoSpaceAppend(name + ":" + tag + "@", alg);
    NoSpaceAppend(name + ":" + tag + "@" + alg, ":");
    NoSpaceAppend(name + ":" + tag + "@" + alg + ":", hex);
    NoSpaceAppend(ns, "/");
    NoSpaceAppend(ns + "/", TaggedRef(name, tag, alg, hex));
    assert ns + "/" + TaggedRef(name, tag, alg, hex) == (ns + "/") + TaggedRef(name, tag, alg, hex);
  }

  /** The first `@` of `ns/name:tag@alg:hex` is the one after the tag. */
  lemma TaggedBeforeAt(ns: string, name: string, tag: string, alg: string, hex: string)
    requires '@' !in ns && '@' !in name && '@' !in tag
    ensures BeforeFirst(ns + "/" + TaggedRef(name, tag, alg, hex), '@') == ns + "/" + (name + ":" + tag)
  {
    var head := ns + "/" + (name + ":" + tag);
    var line := ns + "/" + TaggedRef(name, tag, alg, hex);
    assert line == head + ("@" + alg + ":" + hex);
    assert line[..|head|] == head;
    assert line[|head|] == '@';
    assert '@' !in head;
    BeforeFirstAt(line, '@', |head|);
  }

  /** `ns/x` with no other `/` has namespace `ns` and last segment `x`. */
  lemma TwoParts(ns: string, x: string)
    requires '/' !in ns && '/' !in x
    ensures AfterLast(ns + "/" + x, '/') == x && NamespaceOf(Split(ns + "/" + x, '/')) == ns
  {
    SplitWhole(x, '/');
    assert ns + "/" + x == ns + ['/'] + x;
    SplitAtSeparator(ns, x, '/');
    assert Split(ns + "/" + x, '/') == [ns, x];
  }

  /** The first `:` of `name:more` is the one after a `:`-free name. */
  lemma BeforeColon(name: string, more: string)
    requires ':' !in name
    ensures BeforeFirst(name + ":" + more, ':') == name
  {
    var s := name + ":" + more;
    assert s[..|name|] == name;
    assert s[|name|] == ':';
    BeforeFirstAt(s, ':', |name|);
  }
}
