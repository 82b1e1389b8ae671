/**
 The detection pass (`preprocess_images`): one forward scan of the image list
 that remembers, for every repository name, the namespace it was first seen
 with, and collects the names that later turn up under another namespace.
 */
module Preprocess {
  import opened Text
  import opened ImageList
  import opened Collect

  /** Source lines 155-159: the last word of the line with everything from its
      first `@` on cut off. */
  function DigestFree(line: string): (image: string)
    requires !AllSpace(line)
    ensures '@' !in image
    ensures var w := LastWord(line); |image| <= |w| && image == w[..|image|]
    ensures var w := LastWord(line); |image| == |w| || w[|image|] == '@'
    ensures image == LastWord(line) <==> '@' !in LastWord(line)
  {
    BeforeFirst(LastWord(line), '@')
  }

  /** Source lines 162-179: the digest-free image split on `/`; the name is the
      last part up to its first `:`, the namespace follows the shared namespace rule. */
  function DetectionRef(line: string): (o: Occurrence)
    requires !AllSpace(line)
    ensures '/' !in o.name && ':' !in o.name && '@' !in o.name
    ensures '/' !in o.namespace && '@' !in o.namespace
    ensures var nameTag := AfterLast(DigestFree(line), '/');
      |o.name| <= |nameTag| && nameTag[..|o.name|] == o.name
      && (|o.name| == |nameTag| || nameTag[|o.name|] == ':')
  {
    var image := DigestFree(line);
    var nameTag := AfterLast(image, '/');
    SuffixKeepsOut(image, nameTag, '@');
    var name := BeforeFirst(nameTag, ':');
    PrefixKeepsOut(nameTag, name, '@');
    PrefixKeepsOut(nameTag, name, '/');
    NamespaceKeepsOut(image, '/', '@');
    Occurrence(name, NamespaceOf(Split(image, '/')))
  }

  /** How the detection pass reads a line, in terms of its digest-free image. */
  lemma DetectionRefOf(line: string, image: string)
    requires !AllSpace(line) && DigestFree(line) == image
    ensures DetectionRef(line) == Occurrence(BeforeFirst(AfterLast(image, '/'), ':'), NamespaceOf(Split(image, '/')))
  {
  }

  /** Source lines 148-179 for one raw line: nothing for a blank or comment
      line, the detection pass's reading of the image otherwise. */
  function EntryOf(raw: string): Option<Occurrence> {
    if IsEntry(raw) then
      EntryHasWord(raw);
      Some(DetectionRef(Strip(raw)))
    else None
  }

  /** An image line is read from its stripped text. */
  lemma EntryIsDetection(raw: string)
    requires IsEntry(raw)
    ensures !AllSpace(Strip(raw)) && EntryOf(raw) == Some(DetectionRef(Strip(raw)))
  {
    EntryHasWord(raw);
  }

  /** Source line 176: the value stored per name, with `_` appended so that the
      empty namespace is a non-empty value like any other. */
  function Key(namespace: string): (k: string)
    ensures |k| == |namespace| + 1 && k[..|namespace|] == namespace && k[|namespace|] == '_'
  {
    namespace + "_"
  }

  /** Appending `_` loses nothing: two namespaces have the same key only when they are equal. */
  lemma KeyInjective(a: string, b: string)
    ensures Key(a) == Key(b) <==> a == b
  {
    if Key(a) == Key(b) {
      assert a == Key(a)[..|a|] == Key(b)[..|b|] == b;
    }
  }

  /** The strip-off of the `_` sentinel. */
  function Unkey(key: string): (namespace: string)
    requires |key| > 0
    ensures key == Key(namespace) <==> key[|key| - 1] == '_'
  {
    key[..|key| - 1]
  }

  /** The state of the scan: `temp_map` and `duplicate_images`. */
  datatype Detection = Detection(tempMap: map<string, string>, duplicates: set<string>)

  const Initial := Detection(map[], {})

  /** Source lines 183-188 for one occurrence: a new name is recorded with its
      key; a known name with another key is flagged; nothing is ever overwritten. */
  function Record(st: Detection, name: string, key: string): (r: Detection)
    ensures r.tempMap.Keys == st.tempMap.Keys + {name}
    ensures forall n :: n in st.tempMap ==> r.tempMap[n] == st.tempMap[n]
    ensures name !in st.tempMap ==> r.tempMap[name] == key
    ensures r.duplicates - {name} == st.duplicates - {name}
    ensures name in r.duplicates <==> name in st.duplicates || (name in st.tempMap && st.tempMap[name] != key)
    ensures name in st.tempMap && st.tempMap[name] == key ==> r == st
  {
    if name in st.tempMap then
      if st.tempMap[name] != key then st.(duplicates := st.duplicates + {name}) else st
    else
      st.(tempMap := st.tempMap[name := key])
  }

  /** One iteration of the loop on an already-read line. */
  function Step(st: Detection, entry: Option<Occurrence>): Detection {
    match entry
    case None => st
    case Some(o) => Record(st, o.name, Key(o.namespace))
  }

  /** Source lines 147-188: one raw line of the file. */
  function Visit(st: Detection, raw: string): Detection {
    Step(st, EntryOf(raw))
  }

  /** Source lines 144-188: the whole scan, line by line in file order. */
  function PreprocessImages(lines: seq<string>): Detection
    decreases |lines|
  {
    if |lines| == 0 then Initial
    else Visit(PreprocessImages(lines[..|lines| - 1]), lines[|lines| - 1])
  }

  /** Every name the scan flags is also one it recorded in `temp_map`. */
  lemma {:induction false} FlaggedAreRecorded(lines: seq<string>)
    ensures PreprocessImages(lines).duplicates <= PreprocessImages(lines).tempMap.Keys
    decreases |lines|
  {
    if |lines| > 0 {
      FlaggedAreRecorded(lines[..|lines| - 1]);
    }
  }

  // ---------------------------------------------------------------------------
  // The same scan over the lines once they are read, and what it computes

  /** What each line of the file reads as, in order. */
  function Entries(lines: seq<string>): (es: seq<Option<Occurrence>>)
    ensures |es| == |lines|
  {
    seq(|lines|, i requires 0 <= i < |lines| => EntryOf(lines[i]))
  }

  lemma EntriesAt(lines: seq<string>, i: nat)
    requires i < |lines|
    ensures Entries(lines)[i] == EntryOf(lines[i])
  {
  }

  /** The loop over read lines. */
  function Scan(es: seq<Option<Occurrence>>): Detection
    decreases |es|
  {
    if |es| == 0 then Initial else Step(Scan(es[..|es| - 1]), es[|es| - 1])
  }

  /** Reading every line first and then scanning computes what the source's single loop computes. */
  lemma {:induction false} PreprocessIsScan(lines: seq<string>)
    ensures PreprocessImages(lines) == Scan(Entries(lines))
    decreases |lines|
  {
    if |lines| > 0 {
      var init, last := lines[..|lines| - 1], lines[|lines| - 1];
      PreprocessIsScan(init);
      EntriesSnoc(lines);
      assert PreprocessImages(lines) == Visit(PreprocessImages(init), last);
    }
  }

  /** The readings of all but the last line, and the reading of the last. */
  lemma EntriesSnoc(lines: seq<string>)
    requires |lines| > 0
    ensures var es := Entries(lines);
      Scan(es) == Step(Scan(Entries(lines[..|lines| - 1])), EntryOf(lines[|lines| - 1]))
  {
    var es := Entries(lines);
    assert es[..|es| - 1] == Entries(lines[..|lines| - 1]);
    assert es[|es| - 1] == EntryOf(lines[|lines| - 1]);
  }

  /** `name` is read under `namespace` somewhere in the file. */
  ghost predicate Seen(es: seq<Option<Occurrence>>, name: string, namespace: string) {
    Some(Occurrence(name, namespace)) in es
  }

  /** `name` is read under at least two different namespaces. */
  ghost predicate Ambiguous(es: seq<Option<Occurrence>>, name: string) {
    exists a, b :: a != b && Seen(es, name, a) && Seen(es, name, b)
  }

  /** The facts the scan keeps true after every line. */
  ghost predicate Consistent(es: seq<Option<Occurrence>>, st: Detection) {
    && (forall n, x :: Seen(es, n, x) ==> n in st.tempMap)
    && (forall n :: n in st.tempMap ==>
          |st.tempMap[n]| > 0 && st.tempMap[n] == Key(Unkey(st.tempMap[n]))
          && Seen(es, n, Unkey(st.tempMap[n])))
    && (forall n :: n in st.duplicates <==> Ambiguous(es, n))
  }

  lemma SeenSnoc(init: seq<Option<Occurrence>>, e: Option<Occurrence>, n: string, x: string)
    ensures Seen(init + [e], n, x) <==> Seen(init, n, x) || e == Some(Occurrence(n, x))
  {
    assert forall y :: y in init + [e] <==> y in init || y == e;
  }

  /** A line without an image keeps the facts. */
  lemma ConsistentSkip(init: seq<Option<Occurrence>>, st: Detection)
    requires Consistent(init, st)
    ensures Consistent(init + [None], st)
  {
    forall n, x ensures Seen(init + [None], n, x) <==> Seen(init, n, x) {
      SeenSnoc(init, None, n, x);
    }
  }

  /** An occurrence whose name and namespace were both seen before keeps the facts. */
  lemma ConsistentRepeat(init: seq<Option<Occurrence>>, st: Detection, o: Occurrence)
    requires Consistent(init, st)
    requires Seen(init, o.name, o.namespace)
    ensures Consistent(init + [Some(o)], st)
  {
    forall n, x ensures Seen(init + [Some(o)], n, x) <==> Seen(init, n, x) {
      SeenSnoc(init, Some(o), n, x);
    }
  }

  /** An occurrence of a name not seen before records the name and flags nothing. */
  lemma ConsistentNew(init: seq<Option<Occurrence>>, st: Detection, o: Occurrence)
    requires Consistent(init, st)
    requires o.name !in st.tempMap
    ensures Consistent(init + [Some(o)], Record(st, o.name, Key(o.namespace)))
  {
    var es := init + [Some(o)];
    var r := Record(st, o.name, Key(o.namespace));
    forall n, x ensures Seen(es, n, x) <==> Seen(init, n, x) || (n == o.name && x == o.namespace) {
      SeenSnoc(init, Some(o), n, x);
    }
    assert Unkey(Key(o.namespace)) == o.namespace;
    forall n ensures n in r.duplicates <==> Ambiguous(es, n) {
      if n == o.name {
        assert forall x :: Seen(es, n, x) ==> x == o.namespace;
        assert !Ambiguous(init, n);
      } else {
        assert forall x :: Seen(es, n, x) <==> Seen(init, n, x);
      }
    }
  }

  /** An occurrence of a known name under another namespace flags the name. */
  lemma ConsistentConflict(init: seq<Option<Occurrence>>, st: Detection, o: Occurrence)
    requires Consistent(init, st)
    requires o.name in st.tempMap && st.tempMap[o.name] != Key(o.namespace)
    ensures Consistent(init + [Some(o)], Record(st, o.name, Key(o.namespace)))
  {
    var es := init + [Some(o)];
    var r := Record(st, o.name, Key(o.namespace));
    var stored := st.tempMap[o.name];
    forall n, x ensures Seen(es, n, x) <==> Seen(init, n, x) || (n == o.name && x == o.namespace) {
      SeenSnoc(init, Some(o), n, x);
    }
    assert Unkey(stored) != o.namespace;
    assert Seen(es, o.name, Unkey(stored)) && Seen(es, o.name, o.namespace);
    assert Ambiguous(es, o.name);
    forall n | n != o.name ensures n in r.duplicates <==> Ambiguous(es, n) {
      assert forall x :: Seen(es, n, x) <==> Seen(init, n, x);
    }
  }

  lemma {:induction false} ScanConsistent(es: seq<Option<Occurrence>>)
    ensures Consistent(es, Scan(es))
    decreases |es|
  {
    if |es| > 0 {
      var init := es[..|es| - 1];
      var e := es[|es| - 1];
      assert es == init + [e];
      ScanConsistent(init);
      var st := Scan(init);
      match e
      case None =>
        ConsistentSkip(init, st);
      case Some(o) =>
        if o.name !in st.tempMap {
          ConsistentNew(init, st, o);
        } else if st.tempMap[o.name] != Key(o.namespace) {
          ConsistentConflict(init, st, o);
        } else {
          assert Unkey(st.tempMap[o.name]) == o.namespace;
          ConsistentRepeat(init, st, o);
        }
    }
  }

  /** The flagged names are exactly the names the file reads under two or more
      different namespaces (an empty and a non-empty namespace count as different). */
  lemma DuplicatesAreAmbiguous(lines: seq<string>, name: string)
    ensures name in PreprocessImages(lines).duplicates <==> Ambiguous(Entries(lines), name)
  {
    PreprocessIsScan(lines);
    ScanConsistent(Entries(lines));
  }

  /** `temp_map` holds exactly the names of the file, each with the key of a namespace it is read under. */
  lemma TempMapNames(lines: seq<string>, name: string)
    ensures name in PreprocessImages(lines).tempMap <==> exists x :: Seen(Entries(lines), name, x)
    ensures name in PreprocessImages(lines).tempMap ==>
      exists x :: Seen(Entries(lines), name, x) && PreprocessImages(lines).tempMap[name] == Key(x)
  {
    PreprocessIsScan(lines);
    ScanConsistent(Entries(lines));
    var m := PreprocessImages(lines).tempMap;
    if name in m {
      assert Seen(Entries(lines), name, Unkey(m[name]));
    }
  }

  /** Reading each element with the same function: what is read from a sequence
      whose elements all occur in another is read from the other too. */
  lemma ReadsSubset<A, B>(f: A -> B, a: seq<A>, b: seq<A>, fa: seq<B>, fb: seq<B>)
    requires |fa| == |a| && forall i :: 0 <= i < |a| ==> fa[i] == f(a[i])
    requires |fb| == |b| && forall j :: 0 <= j < |b| ==> fb[j] == f(b[j])
    requires forall x :: x in a ==> x in b
    ensures forall y :: y in fa ==> y in fb
  {
    forall y | y in fa ensures y in fb {
      var i :| 0 <= i < |a| && fa[i] == y;
      assert a[i] in b;
      var j :| 0 <= j < |b| && b[j] == a[i];
      assert fb[j] == y;
    }
  }

  lemma MultisetSameMembers(a: seq<string>, b: seq<string>)
    requires multiset(a) == multiset(b)
    ensures forall raw :: raw in a <==> raw in b
  {
    forall raw ensures raw in a <==> raw in b {
      assert raw in a <==> raw in multiset(a);
      assert raw in b <==> raw in multiset(b);
    }
  }

  /** Two files holding the same lines, in any order and number, read the same entries. */
  lemma SameLinesSameEntries(a: seq<string>, b: seq<string>)
    requires forall raw :: raw in a <==> raw in b
    ensures forall e :: e in Entries(a) <==> e in Entries(b)
  {
    ReadsSubset(EntryOf, a, b, Entries(a), Entries(b));
    ReadsSubset(EntryOf, b, a, Entries(b), Entries(a));
  }

  /** Entry lists with the same members agree on which names are ambiguous. */
  lemma AmbiguousSameMembers(xs: seq<Option<Occurrence>>, ys: seq<Option<Occurrence>>, name: string)
    requires forall e :: e in xs <==> e in ys
    ensures Ambiguous(xs, name) <==> Ambiguous(ys, name)
  {
    if Ambiguous(xs, name) {
      var a, b :| a != b && Seen(xs, name, a) && Seen(xs, name, b);
      assert Seen(ys, name, a) && Seen(ys, name, b);
    }
    if Ambiguous(ys, name) {
      var a, b :| a != b && Seen(ys, name, a) && Seen(ys, name, b);
      assert Seen(xs, name, a) && Seen(xs, name, b);
    }
  }

  /** Entry lists with the same members see the same names. */
  lemma SeenSameMembers(xs: seq<Option<Occurrence>>, ys: seq<Option<Occurrence>>, name: string)
    requires forall e :: e in xs <==> e in ys
    ensures (exists x :: Seen(xs, name, x)) <==> (exists x :: Seen(ys, name, x))
  {
    if exists x :: Seen(xs, name, x) {
      var x :| Seen(xs, name, x);
      assert Seen(ys, name, x);
    }
    if exists x :: Seen(ys, name, x) {
      var x :| Seen(ys, name, x);
      assert Seen(xs, name, x);
    }
  }

  /** The flagged names depend only on which lines the file holds, not on their order. */
  lemma DuplicatesOrderIndependent(a: seq<string>, b: seq<string>)
    requires multiset(a) == multiset(b)
    ensures PreprocessImages(a).duplicates == PreprocessImages(b).duplicates
  {
    MultisetSameMembers(a, b);
    SameLinesSameEntries(a, b);
    forall n ensures n in PreprocessImages(a).duplicates <==> n in PreprocessImages(b).duplicates {
      DuplicatesAreAmbiguous(a, n);
      DuplicatesAreAmbiguous(b, n);
      AmbiguousSameMembers(Entries(a), Entries(b), n);
    }
  }

  /** The recorded names depend only on which lines the file holds, not on their order;
      which namespace came first is never visible in the set of names. */
  lemma RecordedNamesOrderIndependent(a: seq<string>, b: seq<string>)
    requires multiset(a) == multiset(b)
    ensures PreprocessImages(a).tempMap.Keys == PreprocessImages(b).tempMap.Keys
  {
    MultisetSameMembers(a, b);
    SameLinesSameEntries(a, b);
    forall n ensures n in PreprocessImages(a).tempMap <==> n in PreprocessImages(b).tempMap {
      TempMapNames(a, n);
      TempMapNames(b, n);
      SeenSameMembers(Entries(a), Entries(b), n);
    }
  }

  /** `temp_map` is insert-only: whatever a prefix of the file recorded is still
      recorded, with the same value, after the whole file. */
  lemma {:induction false} PrefixRecordsKept(lines: seq<string>, k: nat)
    requires k <= |lines|
    ensures forall n :: n in PreprocessImages(lines[..k]).tempMap ==>
      n in PreprocessImages(lines).tempMap && PreprocessImages(lines).tempMap[n] == PreprocessImages(lines[..k]).tempMap[n]
    decreases |lines| - k
  {
    if k < |lines| {
      PrefixRecordsKept(lines, k + 1);
      assert lines[..k + 1][..k] == lines[..k];
      var before := PreprocessImages(lines[..k]);
      var after := PreprocessImages(lines[..k + 1]);
      assert after == Visit(before, lines[k]);
    } else {
      assert lines[..k] == lines;
    }
  }

  lemma {:induction false} ScanPrefixKept(es: seq<Option<Occurrence>>, k: nat)
    requires k <= |es|
    ensures forall n :: n in Scan(es[..k]).tempMap ==>
      n in Scan(es).tempMap && Scan(es).tempMap[n] == Scan(es[..k]).tempMap[n]
    decreases |es| - k
  {
    if k < |es| {
      ScanPrefixKept(es, k + 1);
      assert es[..k + 1][..k] == es[..k];
    } else {
      assert es[..k] == es;
    }
  }

  lemma ScanFirstSeen(es: seq<Option<Occurrence>>, i: nat, o: Occurrence)
    requires i < |es| && es[i] == Some(o)
    requires forall j :: 0 <= j < i && es[j].Some? ==> es[j].value.name != o.name
    ensures o.name in Scan(es).tempMap && Scan(es).tempMap[o.name] == Key(o.namespace)
  {
    var before := es[..i];
    ScanConsistent(before);
    var st := Scan(before);
    assert o.name !in st.tempMap;
    assert es[..i + 1][..i] == before;
    assert Scan(es[..i + 1]) == Step(st, es[i]);
    ScanPrefixKept(es, i + 1);
  }

  /** The stored value of a name is the key of the namespace of its first entry line. */
  lemma FirstSeenWins(lines: seq<string>, i: nat, o: Occurrence)
    requires i < |lines| && EntryOf(lines[i]) == Some(o)
    requires forall j :: 0 <= j < i && EntryOf(lines[j]).Some? ==> EntryOf(lines[j]).value.name != o.name
    ensures o.name in PreprocessImages(lines).tempMap && PreprocessImages(lines).tempMap[o.name] == Key(o.namespace)
  {
    var es := Entries(lines);
    forall j | 0 <= j <= i ensures es[j] == EntryOf(lines[j]) {
      EntriesAt(lines, j);
    }
    ScanFirstSeen(es, i, o);
    PreprocessIsScan(lines);
  }

  /** Lines that are blank or comments contribute nothing, wherever they stand. */
  lemma {:induction false} SkippedLineIgnored(a: seq<string>, raw: string, b: seq<string>)
    requires !IsEntry(raw)
    ensures PreprocessImages(a + [raw] + b) == PreprocessImages(a + b)
    decreases |b|
  {
    if |b| == 0 {
      assert (a + [raw] + b)[..|a|] == a;
      assert a + b == a;
    } else {
      var b' := b[..|b| - 1];
      SkippedLineIgnored(a, raw, b');
      assert (a + [raw] + b)[..|a + [raw] + b| - 1] == a + [raw] + b';
      assert (a + b)[..|a + b| - 1] == a + b';
    }
  }
}
