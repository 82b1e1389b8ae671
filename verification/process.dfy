/**
 The rewrite pass (`process_images`): for every image line, the `docker pull`
 arguments, the source image, and the destination under
 `<registry>/<namespace>/`, whose last component carries the platform prefix and,
 for a flagged name, the namespace prefix.

 The repository name this pass reads (`RewriteRef`, `LeafAsWritten`) is modelled
 as written, and `Mirror` is the run the source performs. The corrected leaf
 (`Leaf`, used by `MirrorCorrected`) reads name and namespace the way the
 detection pass does; the two agree on every image reference without `@`
 (`LeafAgreesWithoutDigest`), and `DigestNames` shows where they part.
 */
module Process {
  import opened Text
  import opened ImageList
  import opened Platform
  import opened Preprocess
  import opened Collect

  /** Source lines 207 and 228-241: the image split on `/` as it stands, digest
      included; the name is the last part up to its first `:`. */
  function RewriteRef(image: string): (o: Occurrence)
    ensures '/' !in o.name && ':' !in o.name && '/' !in o.namespace
    ensures var nameTag := AfterLast(image, '/');
      |o.name| <= |nameTag| && nameTag[..|o.name|] == o.name
      && (|o.name| == |nameTag| || nameTag[|o.name|] == ':')
  {
    var nameTag := AfterLast(image, '/');
    var name := BeforeFirst(nameTag, ':');
    PrefixKeepsOut(nameTag, name, '/');
    NamespaceNoSeparator(image, '/');
    Occurrence(name, NamespaceOf(Split(image, '/')))
  }

  /** How the rewrite pass reads an image, in terms of its `/`-separated parts. */
  lemma RewriteRefOf(image: string)
    ensures RewriteRef(image) == Occurrence(BeforeFirst(AfterLast(image, '/'), ':'), NamespaceOf(Split(image, '/')))
  {
  }

  /** On an image reference without `@`, both passes read the same name and namespace. */
  lemma RepoNamesAgree(line: string)
    requires !AllSpace(line)
    requires '@' !in LastWord(line)
    ensures RewriteRef(LastWord(line)) == DetectionRef(line)
  {
    assert DigestFree(line) == LastWord(line);
  }

  /** Source lines 243-248: a namespace prefix only for a flagged name read with
      a non-empty namespace, and then the namespace followed by `_`. */
  function NamespacePrefix(name: string, namespace: string, duplicates: set<string>): (p: string)
    ensures p != "" <==> name in duplicates && namespace != ""
    ensures p != "" ==> p == Key(namespace)
  {
    if name in duplicates && namespace != "" then namespace + "_" else ""
  }

  /** Source lines 221-252 as written: platform prefix, namespace prefix for the
      name read with the digest still attached, then the last path segment of
      the image cut at its first `@`. */
  function LeafAsWritten(line: string, duplicates: set<string>): (leaf: string)
    requires !AllSpace(line)
    ensures '/' !in leaf
  {
    var image := LastWord(line);
    var o := RewriteRef(image);
    var nameTag := AfterLast(image, '/');
    var tail := BeforeFirst(nameTag, '@');
    PrefixKeepsOut(nameTag, tail, '/');
    PlatformPrefix(PlatformOf(line)) + NamespacePrefix(o.name, o.namespace, duplicates) + tail
  }

  /** The source's leaf, piece by piece. */
  lemma LeafAsWrittenOf(line: string, duplicates: set<string>)
    requires !AllSpace(line)
    ensures var image := LastWord(line);
      var o := RewriteRef(image);
      LeafAsWritten(line, duplicates) == PlatformPrefix(PlatformOf(line))
        + NamespacePrefix(o.name, o.namespace, duplicates) + BeforeFirst(AfterLast(image, '/'), '@')
  {
  }

  /** The last component of the destination, with the name and namespace read as
      the detection pass reads them: platform prefix, namespace prefix for a
      flagged name, then the last path segment of the digest-free image. */
  function Leaf(line: string, duplicates: set<string>): (leaf: string)
    requires !AllSpace(line)
    ensures '/' !in leaf
  {
    var image := DigestFree(line);
    var o := DetectionRef(line);
    PlatformPrefix(PlatformOf(line)) + NamespacePrefix(o.name, o.namespace, duplicates) + AfterLast(image, '/')
  }

  /** On an image reference without `@` the corrected leaf is the source's leaf. */
  lemma LeafAgreesWithoutDigest(line: string, duplicates: set<string>)
    requires !AllSpace(line)
    requires '@' !in LastWord(line)
    ensures Leaf(line, duplicates) == LeafAsWritten(line, duplicates)
  {
    RepoNamesAgree(line);
    var nameTag := AfterLast(LastWord(line), '/');
    assert '@' !in nameTag;
  }

  /** The leaf names a tag, never a digest: it holds no `@` as long as the
      platform and the namespace hold none. */
  lemma LeafTagAddressed(line: string, duplicates: set<string>)
    requires !AllSpace(line)
    requires '@' !in PlatformOf(line)
    ensures '@' !in Leaf(line, duplicates)
  {
    var image := DigestFree(line);
    var o := DetectionRef(line);
    var tail := AfterLast(image, '/');
    PlatformPrefixKeepsOut(PlatformOf(line), '@');
    SuffixKeepsOut(image, tail, '@');
    assert Leaf(line, duplicates) == PlatformPrefix(PlatformOf(line)) + NamespacePrefix(o.name, o.namespace, duplicates) + tail;
  }

  /** The same for the source's leaf, which needs the namespace it reads, digest
      included, to be free of `@` as well. */
  lemma LeafAsWrittenTagAddressed(line: string, duplicates: set<string>)
    requires !AllSpace(line)
    requires '@' !in PlatformOf(line)
    requires '@' !in RewriteRef(LastWord(line)).namespace
    ensures '@' !in LeafAsWritten(line, duplicates)
  {
    var image := LastWord(line);
    var o := RewriteRef(image);
    var tail := BeforeFirst(AfterLast(image, '/'), '@');
    PlatformPrefixKeepsOut(PlatformOf(line), '@');
    LeafAsWrittenOf(line, duplicates);
    assert LeafAsWritten(line, duplicates) == PlatformPrefix(PlatformOf(line)) + NamespacePrefix(o.name, o.namespace, duplicates) + tail;
  }

  /** Which reading of a line the destination is built from: the source's own
      (`LeafAsWritten`) or the corrected one (`Leaf`). */
  datatype Reading = AsWritten | Corrected

  /** The last component of the destination under the given reading. */
  function Segment(reading: Reading, line: string, duplicates: set<string>): (leaf: string)
    requires !AllSpace(line)
    ensures '/' !in leaf
  {
    match reading
    case AsWritten => LeafAsWritten(line, duplicates)
    case Corrected => Leaf(line, duplicates)
  }

  /** What one image line turns into: the `docker pull` arguments, the image
      that is pulled and tagged, and the name it is pushed under. */
  datatype Transfer = Transfer(pullArgs: seq<string>, source: string, destination: string)

  /** Source lines 202-252 for one stripped image line (with `AsWritten`; with
      `Corrected` the destination is built from the corrected leaf). */
  function RewriteLine(line: string, duplicates: set<string>, registry: string, target: string, reading: Reading): (t: Transfer)
    requires !AllSpace(line)
    ensures t.source == LastWord(line)
    ensures t.pullArgs == PullArgs(PlatformOf(line), t.source)
    ensures |t.pullArgs| == 3 || |t.pullArgs| == 5
    ensures t.pullArgs[..2] == ["docker", "pull"] && t.pullArgs[|t.pullArgs| - 1] == t.source
    ensures |t.pullArgs| == 5 <==> exists i: nat :: MatchesAt(line, i)
    ensures var n := |registry| + |target| + 2;
      n <= |t.destination| && t.destination[..n] == registry + "/" + target + "/"
  {
    var image := LastWord(line);
    Transfer(PullArgs(PlatformOf(line), image), image, registry + "/" + target + "/" + Segment(reading, line, duplicates))
  }

  /** The destination is the registry, the target namespace and the segment, joined by `/`. */
  lemma DestinationOf(line: string, duplicates: set<string>, registry: string, target: string, reading: Reading, leaf: string)
    requires !AllSpace(line) && Segment(reading, line, duplicates) == leaf
    ensures RewriteLine(line, duplicates, registry, target, reading).destination == registry + "/" + target + "/" + leaf
  {
  }

  /** With a registry and a target namespace free of `/`, the destination is
      exactly three `/`-separated parts: registry, target, leaf. */
  lemma DestinationUnderTarget(line: string, duplicates: set<string>, registry: string, target: string, reading: Reading)
    requires !AllSpace(line)
    requires '/' !in registry && '/' !in target
    ensures Split(RewriteLine(line, duplicates, registry, target, reading).destination, '/')
      == [registry, target, Segment(reading, line, duplicates)]
  {
    var leaf := Segment(reading, line, duplicates);
    assert RewriteLine(line, duplicates, registry, target, reading).destination == registry + ['/'] + target + ['/'] + leaf;
    SplitThree(registry, target, leaf, '/');
  }

  /** A line `--platform<sep><p> <image>` pulls `image` for platform `p`. */
  lemma PullArgsOfFlagLine(sep: char, p: string, image: string, duplicates: set<string>, registry: string, target: string, reading: Reading)
    requires sep == ' ' || sep == '='
    requires |p| > 0 && NoSpace(p)
    requires |image| > 0 && NoSpace(image)
    ensures var line := Flag + [sep] + p + " " + image;
      !AllSpace(line) && RewriteLine(line, duplicates, registry, target, reading).pullArgs
        == ["docker", "pull", "--platform", p, image]
  {
    var prefix := Flag + [sep] + p + " ";
    var line := prefix + image;
    assert line == Flag + [sep] + p + (" " + image);
    PlatformOfFlagLine(sep, p, " " + image);
    assert prefix[|prefix| - 1] == ' ';
    LastWordAfter(prefix, image);
    PullArgsShape(p, image);
  }

  /** A line that is only an image reference without `-` pulls it with no platform. */
  lemma PullArgsOfPlainLine(image: string, duplicates: set<string>, registry: string, target: string, reading: Reading)
    requires |image| > 0 && NoSpace(image) && '-' !in image
    ensures !AllSpace(image) && RewriteLine(image, duplicates, registry, target, reading).pullArgs
      == ["docker", "pull", image]
  {
    NoFlagNoPlatform(image);
    LastWordAfter([], image);
    PullArgsShape("", image);
    assert [] + image == image;
  }

  /** Source lines 196-200 for one raw line: nothing for a line the detection
      pass skips too, the transfer of the stripped line otherwise. */
  function TransferOf(raw: string, duplicates: set<string>, registry: string, target: string, reading: Reading): (r: Option<Transfer>)
    ensures r.Some? <==> EntryOf(raw).Some?
  {
    if IsEntry(raw) then
      EntryHasWord(raw);
      Some(RewriteLine(Strip(raw), duplicates, registry, target, reading))
    else None
  }

  /** What each line of the file turns into, in order. */
  function Transfers(lines: seq<string>, duplicates: set<string>, registry: string, target: string, reading: Reading): seq<Option<Transfer>> {
    MapSeq(raw => TransferOf(raw, duplicates, registry, target, reading), lines)
  }

  /** Source lines 196-252: the transfers of the image lines, in file order,
      one for every line the detection pass reads. */
  function ProcessImages(lines: seq<string>, duplicates: set<string>, registry: string, target: string, reading: Reading): (ts: seq<Transfer>)
    ensures |ts| <= |lines|
    ensures |ts| == |Present(Entries(lines))|
  {
    var xs := Transfers(lines, duplicates, registry, target, reading);
    PresentLength(xs, Entries(lines));
    Present(xs)
  }

  /** The rewrite pass over a file is the rewrite pass over its halves, concatenated. */
  lemma ProcessAppend(a: seq<string>, b: seq<string>, duplicates: set<string>, registry: string, target: string, reading: Reading)
    ensures ProcessImages(a + b, duplicates, registry, target, reading)
      == ProcessImages(a, duplicates, registry, target, reading) + ProcessImages(b, duplicates, registry, target, reading)
  {
    var f := raw => TransferOf(raw, duplicates, registry, target, reading);
    MapSeqAppend(f, a, b);
    PresentAppend(MapSeq(f, a), MapSeq(f, b));
  }

  /** Blank and comment lines yield no transfer, wherever they stand. */
  lemma SkippedLineNotTransferred(a: seq<string>, raw: string, b: seq<string>, duplicates: set<string>, registry: string, target: string, reading: Reading)
    requires !IsEntry(raw)
    ensures ProcessImages(a + [raw] + b, duplicates, registry, target, reading)
      == ProcessImages(a + b, duplicates, registry, target, reading)
  {
    ProcessAppend(a + [raw], b, duplicates, registry, target, reading);
    ProcessAppend(a, [raw], duplicates, registry, target, reading);
    ProcessAppend(a, b, duplicates, registry, target, reading);
    SkippedLineAlone(raw, duplicates, registry, target, reading);
  }

  lemma SkippedLineAlone(raw: string, duplicates: set<string>, registry: string, target: string, reading: Reading)
    requires !IsEntry(raw)
    ensures ProcessImages([raw], duplicates, registry, target, reading) == []
  {
    TransfersSingle(raw, duplicates, registry, target, reading);
    PresentSingle(TransferOf(raw, duplicates, registry, target, reading));
  }

  /** An image line on its own yields exactly the transfer of its stripped text. */
  lemma EntryLineAlone(raw: string, duplicates: set<string>, registry: string, target: string, reading: Reading)
    requires IsEntry(raw)
    ensures !AllSpace(Strip(raw))
    ensures ProcessImages([raw], duplicates, registry, target, reading)
      == [RewriteLine(Strip(raw), duplicates, registry, target, reading)]
  {
    EntryHasWord(raw);
    TransfersSingle(raw, duplicates, registry, target, reading);
    PresentSingle(TransferOf(raw, duplicates, registry, target, reading));
  }

  /** A two-line file yields what each line yields on its own, in order. */
  lemma ProcessPair(a: string, b: string, duplicates: set<string>, registry: string, target: string, reading: Reading)
    ensures ProcessImages([a, b], duplicates, registry, target, reading)
      == ProcessImages([a], duplicates, registry, target, reading) + ProcessImages([b], duplicates, registry, target, reading)
  {
    var xs, ys := [a], [b];
    ProcessAppend(xs, ys, duplicates, registry, target, reading);
    assert xs + ys == [a, b];
  }

  /** The transfers of a one-line file. */
  lemma TransfersSingle(raw: string, duplicates: set<string>, registry: string, target: string, reading: Reading)
    ensures Transfers([raw], duplicates, registry, target, reading) == [TransferOf(raw, duplicates, registry, target, reading)]
  {
  }

  /** The whole run as written: detection over the file, then the rewrite pass
      with the names it flagged. */
  function Mirror(lines: seq<string>, registry: string, target: string): (m: seq<Transfer>)
    ensures |m| == |Present(Entries(lines))|
  {
    ProcessImages(lines, PreprocessImages(lines).duplicates, registry, target, AsWritten)
  }

  /** The whole run with the corrected leaf. */
  function MirrorCorrected(lines: seq<string>, registry: string, target: string): (m: seq<Transfer>)
    ensures |m| == |Present(Entries(lines))|
  {
    ProcessImages(lines, PreprocessImages(lines).duplicates, registry, target, Corrected)
  }

  /** A blank or comment line, wherever it stands, changes nothing in the whole run. */
  lemma MirrorIgnoresSkipped(a: seq<string>, raw: string, b: seq<string>, registry: string, target: string)
    requires !IsEntry(raw)
    ensures Mirror(a + [raw] + b, registry, target) == Mirror(a + b, registry, target)
    ensures MirrorCorrected(a + [raw] + b, registry, target) == MirrorCorrected(a + b, registry, target)
  {
    SkippedLineIgnored(a, raw, b);
    var d := PreprocessImages(a + b).duplicates;
    SkippedLineNotTransferred(a, raw, b, d, registry, target, AsWritten);
    SkippedLineNotTransferred(a, raw, b, d, registry, target, Corrected);
  }

  /** With the name read as the detection pass reads it (the corrected leaf), a
      line gets a namespace prefix exactly when its name turns up in the file
      under two different namespaces and its own namespace is not empty. */
  lemma NamespacePrefixMarksAmbiguous(lines: seq<string>, i: nat)
    requires i < |lines| && IsEntry(lines[i])
    ensures var o := EntryOf(lines[i]).value;
      var p := NamespacePrefix(o.name, o.namespace, PreprocessImages(lines).duplicates);
      (p != "" <==> Ambiguous(Entries(lines), o.name) && o.namespace != "")
      && (p != "" ==> p == Key(o.namespace))
  {
    DuplicatesAreAmbiguous(lines, EntryOf(lines[i]).value.name);
  }

  /** The same for the name the rewrite pass itself reads, on every line both
      passes read alike: every image without `@` (`RepoNamesAgree`), and also a
      tag followed by a digest, but not an image pinned by digest alone. */
  lemma NamespacePrefixMarksAmbiguousAsWritten(lines: seq<string>, i: nat)
    requires i < |lines| && IsEntry(lines[i])
    requires RewriteRef(LastWord(Strip(lines[i]))) == EntryOf(lines[i]).value
    ensures var o := RewriteRef(LastWord(Strip(lines[i])));
      var p := NamespacePrefix(o.name, o.namespace, PreprocessImages(lines).duplicates);
      (p != "" <==> Ambiguous(Entries(lines), o.name) && o.namespace != "")
      && (p != "" ==> p == Key(o.namespace))
  {
    NamespacePrefixMarksAmbiguous(lines, i);
  }

  /** Every image line without `@` meets the hypothesis of the lemma above. */
  lemma ReadAlikeWithoutDigest(raw: string)
    requires IsEntry(raw) && '@' !in LastWord(Strip(raw))
    ensures RewriteRef(LastWord(Strip(raw))) == EntryOf(raw).value
  {
    EntryHasWord(raw);
    RepoNamesAgree(Strip(raw));
  }
}
