# Image-reference rewriting of docker_mirror.py, modelled in Dafny

`docker_mirror.py` mirrors the images named in an image list (`images.txt`)
into a private registry. It makes two passes over the list:

- **Duplicate detection** (`preprocess_images`) reads the repository name and
  namespace of every image line. A name that turns up under two different
  namespaces goes into `duplicate_images`.
- **Rewriting** (`process_images`) reads the platform qualifier and the image of
  every line. It builds the `docker pull` arguments and the destination
  `<registry>/<namespace>/<platform prefix><namespace prefix><name:tag>`. The
  namespace prefix goes only to flagged names.

This project models both passes as pure functions over the lines of the file and
proves what they compute. It is organised as follows:

- `collect.dfy` (`Collect`): `Option`, and the map and filter over sequences
  that the per-line passes are built from.
- `text.dfy` (`Text`): the Python string operations the passes use. These are
  `str.isspace`, `strip()`, `split(sep)`, `split()`, `split()[-1]` and
  `replace`. Whitespace is Python's `isspace` set throughout, which is also the
  set the regular-expression class `\s` uses.
- `image_list.dfy` (`ImageList`): what both passes share. This is which lines
  are image lines and the namespace rule (the middle part of three, the first of
  two, otherwise none).
- `platform.dfy` (`Platform`): the leftmost match of `--platform[ =]([^\s]+)`,
  the platform prefix and the pull argument list.
- `preprocess.dfy` (`Preprocess`): the detection loop with its `temp_map` and
  `duplicate_images`, and what that loop computes.
- `process.dfy` (`Process`): the rewrite pass and the whole run. The last
  destination segment comes in two readings (`Reading`). `AsWritten` is the
  source's own (`RewriteRef`, `LeafAsWritten`); `Mirror` is the run built from
  it. `Corrected` reads the name the way the detection pass does (`Leaf`);
  `MirrorCorrected` is the run built from it. The two readings agree on every
  image without `@`.
- `digest_names.dfy` (`DigestNames`): when two lines that read the same name
  under different namespaces get different destinations, as written and
  corrected. This covers the general separation and prefix lemmas, images
  pinned by digest alone (see Findings), and a tag before a digest, which both
  passes read alike.

The file is a sequence of lines with their line ends removed. The registry and
target namespace come from the environment in the source, so they are
parameters here.

For `nginx` next to `acme/nginx`, only `acme/nginx` gets a namespace prefix:
the code (`docker_mirror.py:247`) adds none for an empty namespace. The model
follows the code: `Process.NamespacePrefix`.

## Model

| member | source | states |
|---|---|---|
| Text.Strip | docker_mirror.py:148 | the stripped line is the slice of the line between leading and trailing whitespace; when it is not empty it starts and ends with non-whitespace; it is empty exactly when the line is all whitespace |
| Text.StripIdempotent | docker_mirror.py:148 | stripping a stripped line changes nothing |
| Text.Split | docker_mirror.py:162 | `split(sep)` gives at least one piece, exactly one when `sep` is absent, and no piece holds `sep` |
| Text.JoinSplit | docker_mirror.py:162 | joining the pieces of `split(sep)` with `sep` gives back the original string |
| Text.SplitJoin | docker_mirror.py:162 | splitting a join of separator-free pieces gives back those pieces |
| Text.SplitThree | docker_mirror.py:252 | `a/b/c` with `/`-free parts splits into exactly `[a, b, c]` |
| Text.BeforeFirst | docker_mirror.py:158 | `s.split(c)[0]` is the prefix of `s` up to the first `c` (or all of `s`), holds no `c`, and is `s` exactly when `c` does not occur |
| Text.AfterLast | docker_mirror.py:163 | `s.split(c)[-1]` is the suffix after the last `c` (or all of `s`), holds no `c`, and is `s` exactly when `c` does not occur |
| Text.LastWord | docker_mirror.py:155 | `split()[-1]` is a non-empty, whitespace-free suffix of the right-stripped line, preceded by whitespace or nothing |
| Text.LastWordIsLastOfWords | docker_mirror.py:155 | the trailing word taken from the right-stripped line is the last element of `split()`, which is non-empty for a line that is not all whitespace |
| Text.LastWordAfter | docker_mirror.py:207 | a word standing after whitespace at the end of a line is that line's `split()[-1]` |
| Text.ReplaceChar | docker_mirror.py:225 | `replace(a, b)` keeps the length, changes exactly the `a` characters to `b`, and leaves no `a` |
| Text.ReplaceRoundTrip | docker_mirror.py:225 | replacing `a` by `b` and back restores a string that held no `b` |
| ImageList.SkippedLine | docker_mirror.py:151-152 | a line is skipped exactly when it is all whitespace or its stripped text starts with `#` |
| ImageList.EntryHasWord | docker_mirror.py:151-155 | a line that is not skipped still holds a word, so `split()[-1]` cannot fail |
| ImageList.NamespaceOfTwoParts | docker_mirror.py:167-172 | for `ns/name:tag` the namespace is the text before the `/`, and the image is namespace, `/`, last segment |
| ImageList.NamespaceOfThreeParts | docker_mirror.py:167-172 | for `host/ns/name:tag` the namespace is the text between the two `/`, and the image is host, `/`, namespace, `/`, last segment |
| ImageList.NamespaceNoSeparator | docker_mirror.py:167-172 | the namespace read from the `/`-separated parts of an image never holds a `/` |
| Platform.PlatformOf | docker_mirror.py:203-204 | the platform is empty exactly when the pattern matches nowhere; otherwise it is group 1 of the leftmost match, a non-empty run without whitespace |
| Platform.PlatformOfFlagLine | docker_mirror.py:203-204 | a line `--platform p ...` or `--platform=p ...` yields `p` |
| Platform.NoFlagNoPlatform | docker_mirror.py:203-204 | a line without `-` has no platform |
| Platform.PlatformPrefix | docker_mirror.py:222-225 | the prefix is empty exactly when the platform is; otherwise it is the platform with every `/` replaced by `_`, followed by one `_`, and holds no `/` |
| Platform.PlatformPrefixRoundTrip | docker_mirror.py:225 | a platform without `_` is recovered from its prefix, so distinct such platforms give distinct prefixes |
| Platform.PullArgs | docker_mirror.py:210-214 | `docker pull`, then `--platform p` exactly when the platform is not empty, then the image: 3 or 5 arguments |
| Preprocess.DigestFree | docker_mirror.py:155-158 | the image detection reads is the line's last word cut at its first `@`: a prefix of the word, followed in the word by `@` or by nothing, holding no `@`, and the whole word exactly when the word holds no `@` |
| Preprocess.DetectionRef | docker_mirror.py:162-179 | the name detection reads is the last `/`-segment of the digest-free image up to its first `:`, so it holds no `/`, `:` or `@`; its namespace holds no `/` or `@` |
| Preprocess.Key | docker_mirror.py:176 | the stored key is the namespace followed by exactly one `_` |
| Preprocess.KeyInjective | docker_mirror.py:176 | appending `_` loses nothing: two namespaces have the same stored key exactly when they are equal |
| Preprocess.Record | docker_mirror.py:183-188 | `temp_map` only gains the name and never changes a stored value; a name is newly flagged exactly when it was stored with a different key; a repeat with the same key changes nothing |
| Preprocess.PreprocessIsScan | docker_mirror.py:146-188 | the single loop over raw lines equals reading every line first and then scanning the readings |
| Preprocess.DuplicatesAreAmbiguous | docker_mirror.py:146-188 | a name is flagged exactly when the file reads it under at least two different namespaces |
| Preprocess.TempMapNames | docker_mirror.py:183-188 | `temp_map` holds exactly the names of the file, each with the key of a namespace it is read under |
| Preprocess.DuplicatesOrderIndependent | docker_mirror.py:146-188 | files with the same lines in any order flag the same names |
| Preprocess.RecordedNamesOrderIndependent | docker_mirror.py:146-188 | files with the same lines in any order record the same names |
| Preprocess.PrefixRecordsKept | docker_mirror.py:183-188 | whatever a prefix of the file stored in `temp_map` is still stored, with the same value, after the whole file |
| Preprocess.FirstSeenWins | docker_mirror.py:183-188 | a name's stored value is the key of the namespace of its first image line |
| Preprocess.FlaggedAreRecorded | docker_mirror.py:183-188 | every name the scan flags in `duplicate_images` is also a key of `temp_map` |
| Preprocess.SkippedLineIgnored | docker_mirror.py:148-152 | inserting a blank or comment line anywhere does not change the detection result |
| Process.RewriteRef | docker_mirror.py:229-241 | the name the rewrite pass reads is the last `/`-segment of the whole image, digest included, up to its first `:`, so it holds no `/` or `:`; its namespace holds no `/` |
| Process.RepoNamesAgree | docker_mirror.py:229-241 | on an image without `@`, the rewrite pass reads the same name and namespace as the detection pass |
| Process.NamespacePrefix | docker_mirror.py:243-248 | the namespace prefix is non-empty exactly when the name is flagged and the namespace is not empty, and it is then the namespace followed by `_` |
| Process.NamespacePrefixMarksAmbiguous | docker_mirror.py:243-248 | with the name read as detection reads it (the corrected reading), an image line gets a namespace prefix exactly when its name occurs in the file under two namespaces and its own namespace is not empty |
| Process.NamespacePrefixMarksAmbiguousAsWritten | docker_mirror.py:229-248 | with the name the rewrite pass reads (line 241), on every line both passes read alike, the same: a prefix exactly when the name occurs under two namespaces and the namespace is not empty |
| Process.ReadAlikeWithoutDigest | docker_mirror.py:155-241 | every image line without `@` is read alike by both passes (the hypothesis above) |
| Process.LeafAsWritten | docker_mirror.py:222-252 | the last destination segment as the source builds it holds no `/` |
| Process.Leaf | docker_mirror.py:222-252 | the corrected last destination segment holds no `/` |
| Process.LeafAgreesWithoutDigest | docker_mirror.py:250-252 | on an image without `@`, the corrected segment is the source's segment |
| Process.LeafTagAddressed | docker_mirror.py:251-252 | the corrected segment holds no `@` when the platform holds none |
| Process.LeafAsWrittenTagAddressed | docker_mirror.py:251-252 | the source's segment holds no `@` when neither the platform nor the namespace it reads holds one |
| Process.RewriteLine | docker_mirror.py:202-252 | the source is the line's last word; the pull arguments take the line's platform and the source; there are 5 exactly when the pattern matches; the destination starts with `registry/namespace/`, in either reading |
| Process.DestinationUnderTarget | docker_mirror.py:252 | with `/`-free registry and target namespace, the destination splits into exactly registry, target namespace and the segment of the chosen reading, the as-written one included |
| Process.PullArgsOfFlagLine | docker_mirror.py:203-214 | `--platform p image` pulls with `["docker", "pull", "--platform", p, image]` |
| Process.PullArgsOfPlainLine | docker_mirror.py:203-214 | a bare image without `-` pulls with `["docker", "pull", image]` |
| Process.TransferOf | docker_mirror.py:196-200 | the rewrite pass handles a line exactly when the detection pass reads it |
| Process.ProcessImages | docker_mirror.py:194-200 | the rewrite pass yields one transfer for each line the detection pass reads, so never more than there are lines |
| Process.ProcessAppend | docker_mirror.py:194-252 | the rewrite pass over two halves of a file is the two results concatenated |
| Process.SkippedLineNotTransferred | docker_mirror.py:196-200 | inserting a blank or comment line anywhere changes no transfer |
| Process.EntryLineAlone | docker_mirror.py:196-252 | an image line on its own yields exactly the transfer of its stripped text |
| Process.Mirror | docker_mirror.py:146-252 | the run as written yields one transfer per image line of the file |
| Process.MirrorCorrected | docker_mirror.py:146-252 | the corrected run yields one transfer per image line of the file |
| Process.MirrorIgnoresSkipped | docker_mirror.py:151-152 | inserting a blank or comment line anywhere changes neither run, detection included |
| Collect.PresentLength | docker_mirror.py:196-200 | two per-line passes that keep the same lines collect the same number of results |
| Collect.PresentHas | docker_mirror.py:196-200 | a transfer is among those collected exactly when some line produced it |
| Collect.PresentAppend | docker_mirror.py:196-200 | collecting over a concatenation of lines collects over each part in turn |
| DigestNames.DetectDigestRef | docker_mirror.py:155-179 | detection reads `name@alg:hex` as `name` with no namespace, for pieces without `-` |
| DigestNames.DetectNamespaced | docker_mirror.py:155-179 | detection reads `ns/name@alg:hex` as `name` under `ns`, for pieces without `-` |
| DigestNames.RewriteDigestRef | docker_mirror.py:229-241 | the rewrite pass reads `name@alg:hex` as `name@alg` |
| DigestNames.RewriteNamespaced | docker_mirror.py:229-241 | the rewrite pass reads `ns/name@alg:hex` as `name@alg` under `ns` |
| DigestNames.DigestPairFlagged | docker_mirror.py:146-188 | for `name@alg:h1` and `ns/name@alg:h2`, exactly `name` is flagged |
| DigestNames.DigestOnlyCollision | docker_mirror.py:241-252 | as written, both lines of that pair get the same last segment `name` |
| DigestNames.DigestPairSeparated | docker_mirror.py:243-252 | corrected, the pair gets `name` and `ns_name` |
| DigestNames.MirrorDigestCollision | docker_mirror.py:241-252 | the whole run as written pushes both `name@alg:h1` and `ns/name@alg:h2` to `registry/namespace/name` |
| DigestNames.MirrorDigestSeparated | docker_mirror.py:243-252 | the corrected run pushes them to `registry/namespace/name` and `registry/namespace/ns_name` |
| DigestNames.CorrectedSeparatesNamespaces | docker_mirror.py:243-252 | two lines reading the same name under different namespaces, with the same platform, get different corrected destinations |
| DigestNames.AsWrittenSeparatesNamespaces | docker_mirror.py:243-252 | two lines reading the same name under different namespaces, with the same platform and images without `@`, get different destinations from the source's own segment |
| DigestNames.TaggedDigestAgrees | docker_mirror.py:155-241 | with a tag before the digest, `ns/name:tag@alg:hex`, both passes read `name` under `ns`, so line 241 is right there |
| DigestNames.CorrectedPrefixesFlagged | docker_mirror.py:243-252 | corrected, every line with a flagged name and a non-empty namespace carries `namespace_` right after the platform prefix |

## Left out

- Loading `.env` and the registry credentials (`load_env`) is left out. The registry and target namespace are parameters.
- `docker_login`, `run_command` and every `docker` invocation (pull, tag, push, rmi) are left out: they are calls into a program outside this code. The model stops at the pull argument list and the source and destination names.
- Opening the image list and its existence check are file I/O and are left out. Line splitting of `for line in f` is also not modelled: the file is given as its lines.
- Logging and `main` are left out. They compute nothing the passes use.
- `re.search` is modelled for the one pattern the source uses, not as a general regular-expression engine.
- Process.LeafTagAddressed: the destination is tag-addressed only when the platform holds no `@`. A platform token such as `linux@x` would carry `@` into the prefix.
- Process.LeafAsWrittenTagAddressed: the as-written segment also needs the namespace it reads to be free of `@`. In `a@b/c:1`, the rewrite pass reads the namespace `a@b`.
- DigestNames.CorrectedSeparatesNamespaces: the namespaces must hold no `:`. The naming scheme cannot tell `namespace_` from a tag that ends in `_name`: `acme/app:1_app` and `acme_app:1/app` both read the name `app` and both get the segment `acme_app:1_app`, in the source as well as corrected.
- DigestNames.CorrectedSeparatesNamespaces: the two lines must also have the same platform. The platform prefix and the namespace prefix run together: `--platform=a/b x/nginx` and `--platform=a b_x/nginx` both give the segment `a_b_x_nginx` once `nginx` is flagged.
- Process.NamespacePrefixMarksAmbiguousAsWritten: is stated for lines both passes read alike. That covers every image without `@` (Process.ReadAlikeWithoutDigest) and a tag before the digest (DigestNames.TaggedDigestAgrees). It fails for digest-only images, where the rewrite pass reads `name@alg`, which detection never flags; that is the finding below.
- DigestNames.AsWrittenSeparatesNamespaces: needs the same platform and `:`-free namespaces as the corrected lemma, and images without `@`; digest-only images are the finding below.
- DigestNames.DetectDigestRef: the pieces of the reference hold no `-`, so names such as `kube-state-metrics@sha256:...` are outside them. The restriction lets the same pieces be reused on the rewrite side, where a `-` could start a `--platform` flag; detection itself reads such names the same way.
- DigestNames.DetectNamespaced: the same restriction as DigestNames.DetectDigestRef.
- Process.Mirror: it is the run in which every `docker` call succeeds. The source ends the whole run at the first failing pull, tag or push (`run_command` exits at docker_mirror.py:111-112), which is not modelled. Its contract states the number of transfers. What each transfer holds is stated per line by Process.RewriteLine and Process.DestinationUnderTarget, and for whole files by Process.EntryLineAlone, Process.ProcessAppend and Process.MirrorIgnoresSkipped.
- Process.MirrorCorrected: the same as for Process.Mirror.

## Findings

| source | as written | input that shows it | evidently intended | confidence | as-written member | corrected member |
|---|---|---|---|---|---|---|
| docker_mirror.py:241 | the repository name is taken from the last path segment before the digest is cut off (line 251), so an image pinned by digest alone, `name@alg:hex`, is read as `name@alg` | the two lines `nginx@sha256:1` and `acme/nginx@sha256:2`: detection flags `nginx`, yet neither line gets a namespace prefix and both are pushed to `<registry>/<namespace>/nginx` | read the name from the digest-free segment, as detection does (line 158), so the pair goes to `nginx` and `acme_nginx` | not executed | DigestNames.MirrorDigestCollision | DigestNames.MirrorDigestSeparated |
