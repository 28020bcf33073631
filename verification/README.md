# recma-next-static-images, modelled in Dafny

`recma-next-static-images` is a recma plugin: a transform over the ESTree
program that MDX compiles to. It finds every `<img>` element call of the JSX
automatic runtime, `_jsx(_components.img, { src: "..." , ... }, ...)`, and
loads the image named by its `src` string. A local path is read from disk and
a URL is fetched. The bytes are copied into a cache directory under a file
named by their SHA-256 digest. The `src` value is swapped for an identifier,
and an `import <identifier> from "<cached file>"` is put in front of the
program, so the bundler treats the image as a static asset.

The repository ships two variants, and both are modelled:

* `src/index.ts`, the newer variant, modelled in `TsPlugin`:
  * The cache directory must live under `public/`.
  * Images are recorded in a `Map` keyed by their `src` property node. The
    map is created once per plugin instance.
  * Import names are `__RecmaStaticImage<uuid>`.
  * File names use the hex digest.
  * The visitors' promises are awaited with `Promise.allSettled`, so a
    failing image leaves its call untouched.
* `index.js`, the older compiled variant, modelled in `JsPlugin`:
  * Import names are `static_image_<n>`, from a counter per document.
  * File names use the base64 digest.
  * Extensions come from `getExtension`.
  * The visitors' promises are awaited with `Promise.all`, so a failing image
    fails the whole transform.

Shared pieces:

* `Estree`: the part of the syntax tree the plugin reads or builds.
* `Matcher`: the factory-name collection and the image-call test.
* `Traverse`: the "collect the matches, then visit each one" traversal.
* `Imports`: the import declarations and how they are prepended.
* `Paths`: the extension rules, trailing-slash removal and the source
  directory.
* `Encoding`: hex and base64, each with its decoder.
* `Text`: splitting, joining and decimal numerals.
* `Config`: option handling.
* `Environment`: the outside world, as oracle functions in a `Host` value.
  These are URL parsing, path resolution, file reads, fetches, writes,
  SHA-256 and UUIDs.

`Findings` records three places where the code does not do what it evidently
intends.

A transform is a pure function in the model. It takes the host, the instance
state, the document's path history and the tree. It returns one of two
things:

* The new program, the next instance state and the files written.
* The error that rejects the transform.

The call-site visitors run in the pre-order in which the traversal collects
them. Each visitor's state is threaded to the next.

## Model

| member | source | states |
|---|---|---|
| Config.MatchesPublic | src/index.ts:68 | the `public/` test passes only for a directory starting with `public/` or `./public/`, and for a directory without line terminators it passes exactly then |
| Config.NormaliseCacheDirectory | src/index.ts:65-73 | a missing or empty cache directory is refused; a directory matching `^(\./)?public/.*$` is kept as given; any other becomes `public/` plus the directory without a leading `./`; the result always starts with `public/` or `./public/` |
| Config.DropDotSlash | src/index.ts:72 | a leading `./` is removed and nothing else changes |
| Config.NormaliseIdempotent | src/index.ts:68-72 | for a directory without line terminators, the normalised directory passes the `public/` test, so normalising it again changes nothing |
| Config.CacheRoot | src/index.ts:75 | the cache directory is a prefix of the resolved path and has no trailing `/` |
| Config.TsCacheDirectory | src/index.ts:64-75 | the newer variant fails exactly on a missing or empty option; otherwise, when creating the directory succeeds, the result is the resolved, slash-trimmed form of the normalised directory |
| Config.JsCacheDirectory | index.js:9-13 | the older variant fails exactly on a missing or empty option; otherwise, when creating the directory succeeds, the result is the option resolved and slash-trimmed, with no `public/` rule |
| Environment.Load | src/index.ts:132-153 | a `src` the URL parser accepts is fetched and succeeds exactly on status 200, with the response body as the bytes; any other `src` is resolved against the base directory and read, and succeeds exactly when the read does |
| Encoding.Hex | src/index.ts:259-261 | the digest text has two lower-case hex digits per byte |
| Encoding.HexRoundTrip | src/index.ts:259-261 | decoding the hex text gives back the digest bytes, so distinct digests name distinct files |
| Encoding.Base64 | index.js:108-110 | the base64 text has four characters per started group of three bytes |
| Encoding.Base64RoundTrip | index.js:108-110 | decoding the base64 text gives back the digest bytes |
| Encoding.Base64SlashInside | index.js:108-110 | when the third byte ends in six one bits, the fourth base64 character is `/` |
| Matcher.IsImageCall | src/index.ts:245-256 | a node passing the image-call test is a call of a collected factory name whose second argument is an object expression, and its props are that object's properties; the older variant's test (index.js:97-106) is the same one |
| Matcher.FactoryNamesExact | src/index.ts:232-244 | a name is collected exactly when some import specifier in the tree imports `jsx` or `jsxs` under that local name |
| Matcher.Filter | src/index.ts:272-275 | the collected nodes are exactly the visited nodes that pass the image-call test |
| Matcher.FilterAppend | src/index.ts:272-275 | collecting keeps the visit order: the matches of a concatenation are the matches of each part, in order |
| Matcher.FirstSrc | src/index.ts:99-111 | the index found is that of a `src` property with a string literal value, and no earlier property is one; no index is found exactly when no property is one |
| Paths.StripTrailingSlashes | src/index.ts:75 | the result is a prefix of the input that does not end in `/`, and everything removed is `/` |
| Paths.Extname | src/index.ts:121-122 | the extension is empty or a single `.` followed by dot-free, slash-free text, and it ends the path once trailing slashes are removed |
| Paths.ExtnameIsLastDot | src/index.ts:121-122 | a non-empty extension is a proper suffix of the last segment, so it runs from that segment's last `.`, which is not its first character; the extension is empty exactly when the segment is `..` or has no `.` after its first character |
| Paths.StripQueryAndFragment | src/index.ts:123 | the result is the input cut at the leftmost `?` or `#` that has no line terminator after it, and no earlier position is such a cut |
| Paths.StripQueryAndFragmentClean | src/index.ts:123 | without line terminators no `?` or `#` survives; text without `?` or `#` is left unchanged |
| Paths.ExtnameOfName | src/index.ts:121-122 | for a last segment `<stem>.<tail>` with a non-empty stem and no `.` in the tail, `extname` is `.<tail>`, except for the name `..` |
| Paths.SourceExtension | src/index.ts:121-123 | the newer variant's extension is `extname` cut at its first `?` or `#` with no line terminator after it, and the whole of `extname` when there is no such mark; it has no `/`, and no `?` or `#` when the `src` has no line terminator |
| Paths.SourceExtensionDropsQuery | src/index.ts:121-123 | for `<stem>.<ext>?<query>` the newer rule gives `.<ext>`, while the older `getExtension` keeps `.<ext>?<query>` |
| Paths.PhotoTarGzQuery | src/index.ts:121-123 | `photo.tar.gz?x=1` has the newer extension `.gz` and the older extension `.gz?x=1` |
| Paths.GetExtensionIsLastDot | index.js:111-117 | `getExtension` is empty when the last `/`-segment has no `.`, and otherwise is `.` followed by the text after the last `.` of that segment |
| Paths.GetExtensionShape | index.js:111-117 | `getExtension` is empty or a `.` followed by dot-free, slash-free text that ends the path |
| Paths.GetExtensionOfName | index.js:111-117 | for a last segment `<stem>.<tail>`, with no `.` in the tail, the extension is `.<tail>` |
| Paths.GetExtensionWithoutDot | index.js:114-115 | a last segment without `.` has no extension |
| Paths.DotFileRulesDisagree | index.js:111-117 | for a dot-file such as `.bashrc` the older rule gives `.bashrc` and `extname` gives the empty string |
| Paths.SourceDirectory | index.js:20 | the source directory is a prefix of the document path, is empty or ends in `/`, and the rest of the path has no `/` |
| Text.JoinSplit | index.js:112-113 | joining the parts of a split with the separator gives back the string |
| Text.SplitCount | index.js:113-114 | a split has at least two parts exactly when the separator occurs in the string |
| Text.SplitLast | index.js:112 | the last part of a split is the text after the last separator |
| Text.ParseNatToString | index.js:128 | the decimal numeral of a count reads back as that count |
| Text.NatToStringInjective | index.js:128 | distinct counts have distinct numerals |
| Imports.Prepend | src/index.ts:217-230 | prepending adds one statement per present declaration in front and leaves the original body, unchanged, at the end |
| Imports.Defined | src/index.ts:226 | the declarations kept are exactly the present ones, and there are no more of them than entries |
| Imports.PrependReverses | src/index.ts:225-227 | unshifting the present declarations one at a time leaves them in reverse order in front of the unchanged body |
| Imports.PrependShape | src/index.ts:225-227 | the prepended front holds exactly the present declarations, and the original body follows unchanged |
| Imports.PrependBindsDistinct | src/index.ts:225-227 | declarations binding pairwise distinct names still bind pairwise distinct names once prepended |
| Traverse.Walk | src/index.ts:267-279 | a walk keeps the kind of the node it starts from |
| Traverse.WalkIsFold | src/index.ts:272-277 | rewriting the tree while walking threads state exactly as visiting the collected matches one after the other, so the snapshot of matches is what is visited |
| Traverse.RunIsFold | src/index.ts:272-277 | keeping each visitor's answer changes neither the state threaded nor the failure |
| Traverse.RunAnswers | src/index.ts:276 | the k-th answer kept is the visitor's answer for the k-th collected call, in the state the first k visits leave |
| Traverse.WalkIsReplay | src/index.ts:267-279 | when every visit succeeds, the walked tree is the tree with each call site's own answer applied to its arguments, and the state is the one the visits leave |
| Traverse.ReplayLeafCall | src/index.ts:186-198 | an image call with no image call inside it comes out as the same callee with its rewrite applied to its own arguments |
| Traverse.ReplayAroundLeafCall | src/index.ts:272-277 | a node that is not an image call and holds one leaf image call comes out holding that call rewritten, and nothing else changed |
| Traverse.WalkLeafCall | src/index.ts:186-198 | walking an image call with no image call inside it gives the same callee with the visitor's rewrite applied to its arguments, and the state the visit leaves |
| Traverse.WalkAroundLeafCall | src/index.ts:272-277 | walking a node that is not an image call and holds one leaf image call gives that node with the call rewritten in place, and the state the visit leaves |
| Traverse.ReplayWithoutMatches | src/index.ts:272-277 | replaying a tree without image calls gives the tree back |
| Traverse.WalkWithoutMatches | src/index.ts:272-277 | a tree without image calls is returned unchanged, with the state untouched |
| Traverse.WalkSucceeds | src/index.ts:277 | a visitor whose failures are all swallowed gives a walk that never fails |
| TsPlugin.Find | src/index.ts:79-83 | the map lookup finds the first entry with the key, and finds none exactly when no entry has it |
| TsPlugin.Put | src/index.ts:116 | after `images.set` the key maps to the new data; an existing key keeps its position and every other entry is untouched; a new key is added at the end |
| TsPlugin.PutKeepsKeysUnique | src/index.ts:79-83 | setting an entry keeps every key in the map at most once |
| TsPlugin.ImportNameInjective | src/index.ts:124 | two UUIDs give the same import name exactly when they are the same UUID |
| TsPlugin.CachePath | src/index.ts:162 | the cache path is `<cache>/`, then a name two characters per digest byte long, then the extension |
| TsPlugin.CachePathNamesDigest | src/index.ts:162 | the cache file's name is made of hex digits only and decodes back to the SHA-256 digest of the image's bytes |
| TsPlugin.Register | src/index.ts:115-157 | a property already in the map leaves everything unchanged; otherwise one UUID is drawn, and the entry is added exactly when the image loads, recording the loaded bytes, the `__RecmaStaticImage<uuid>` name and the replacement property |
| TsPlugin.Commit | src/index.ts:159-184 | the entry gains its cache path and its import declaration exactly when the write of its bytes to `<cache>/<hex digest><extension>` succeeds, and that write is recorded |
| TsPlugin.Mask | src/index.ts:190-196 | only the property at the found index is replaced |
| TsPlugin.VisitSource | src/index.ts:113-200 | a `src` property not yet in the map draws exactly one UUID, and its call is rewritten exactly when its image loads and the write of those bytes to `<cache>/<hex digest><extension>` succeeds; one already in the map draws none and is rewritten exactly when its write succeeds; a rewrite leaves an entry for the site with its import from the written file, and replaces only the first `src` property, by the property with its value swapped for the import name of the UUID just drawn |
| TsPlugin.Visit | src/index.ts:98-201 | a call without a `src` property is skipped; a call whose site is new draws exactly one UUID and is rewritten exactly when its first `src` image loads and is written; any visit changes at most the entry of its own site and writes nothing when it keeps the call |
| TsPlugin.FreshUuid | src/index.ts:15 | with UUIDs that never repeat, the next one drawn differs from every UUID in the map |
| TsPlugin.RegisterKeepsInv | src/index.ts:115-157 | registering keeps the map invariant: each entry's name, replacement and import are made from its own UUID, and no two entries share one |
| TsPlugin.CommitKeepsInv | src/index.ts:159-184 | writing keeps the map invariant, and the import path is the cache path of the entry's own bytes |
| TsPlugin.VisitKeepsInv | src/index.ts:98-201 | each visit keeps the map invariant |
| TsPlugin.VisitAppends | src/index.ts:115-116 | the site's key is new, so a visit only appends entries for that site and keeps everything recorded before |
| TsPlugin.VisitReplacement | src/index.ts:124-131 | the replacement of a newly met `src` property is that property with its value swapped for the identifier `__RecmaStaticImage<uuid>` of the UUID drawn for it |
| TsPlugin.VisitRewritesArguments | src/index.ts:186-198 | a rewritten call has its first argument, then the props with only the first `src` property swapped for its replacement, and every argument after the second is dropped |
| TsPlugin.FoldVisits | src/index.ts:95-202 | visiting a document's matches never fails, keeps the map invariant, and adds at most one entry per site, all for this document, behind the existing ones |
| TsPlugin.Attach | src/index.ts:63-83 | attaching fails exactly on a missing or empty cache directory; otherwise, when creating the directory succeeds, the instance starts with an empty map |
| TsPlugin.Declarations | src/index.ts:206 | one optional declaration per map entry, in insertion order |
| TsPlugin.Transform | src/index.ts:85-208 | a transform fails exactly when the document's history is empty or starts with an empty path; otherwise the instance has seen one more document |
| TsPlugin.WalkDocumentFacts | src/index.ts:95-202 | after one document's walk the map keeps its invariant, keeps its old entries, and gains at most one entry per call site of this document |
| TsPlugin.TransformKeepsInv | src/index.ts:85-208 | a transform keeps the instance invariant, and the map only grows, by at most one entry per call site |
| TsPlugin.TransformOutput | src/index.ts:204-207 | the output program starts with every import declaration in the map, last recorded first, and has exactly as many more statements as the document |
| TsPlugin.TransformReplaysSites | src/index.ts:85-208 | after the imports, the output program is the document with every call site rewritten by the answer its visit gives in the state the earlier sites left |
| TsPlugin.DeclarationsBindDistinct | src/index.ts:204-207 | every present declaration binds the name made from its entry's UUID, and no two bind the same name |
| TsPlugin.TransformImportsDistinct | src/index.ts:204-207 | with UUIDs that never repeat, the prepended imports bind pairwise distinct names |
| TsPlugin.TransformLeaks | src/index.ts:79-83 | a document without image calls still receives every import recorded for earlier documents, and the map is unchanged |
| TsPlugin.TransformIsolated | src/index.ts:85-208 | with a map per document, a transform still fails exactly when the history is empty or starts with an empty path |
| TsPlugin.IsolatedImportsOwnSites | src/index.ts:204-207 | with a map per document, the prepended imports are at most one per call site of this document, and every entry belongs to it |
| TsPlugin.IsolatedWithoutMatches | src/index.ts:204-207 | with a map per document, a document without image calls comes out unchanged |
| JsPlugin.ImageNameInjective | index.js:128 | `static_image_<a>` and `static_image_<b>` are the same name exactly when a and b are equal |
| JsPlugin.SrcPropertyNode | index.js:137-153 | the built property is `src: static_image_<k>`: an `init` property that is not a method, not shorthand and not computed, whose value is an identifier, so it is no longer a `src` string property |
| JsPlugin.JsCachePathNamesDigest | index.js:59 | the cache path is `<cache>/`, a name, then `getExtension` of the `src`; the name's length is a multiple of four and it decodes from base64 to the digest of the image's bytes |
| JsPlugin.ProcessSource | index.js:35-66 | a `src` fails exactly when its image cannot be loaded; otherwise the counter goes up by one, and the import of `static_image_<count>` from `<cache>/<base64 digest><extension>` and the write of the bytes to that path are recorded |
| JsPlugin.ProcessSourceKeepsInv | index.js:35-62 | the k-th import binds `static_image_<k>` to the k-th file written, and that file is named after the digest of its content |
| JsPlugin.VisitProps | index.js:26-67 | the loop yields one entry per property, and the counter goes up by the number of `src` properties |
| JsPlugin.VisitPropsFails | index.js:26-58 | the loop fails exactly when one of the `src` properties names an image that cannot be loaded |
| JsPlugin.VisitPropsNumbering | index.js:26-62 | exactly the `src` properties are replaced, the j-th `src` by the property naming the counter's value plus j |
| JsPlugin.VisitPropsImports | index.js:35-62 | the `src` counted k-th has its loaded bytes written to its cache path as the k-th write, and the k-th import binds `static_image_<k>` to that path |
| JsPlugin.VisitPropsKeepsInv | index.js:26-67 | the import/write invariant holds from one `src` to the next, and imports are only appended |
| JsPlugin.JsVisit | index.js:23-73 | a call-site visit fails exactly when one of its images cannot be loaded; otherwise it replaces the props and keeps the arguments after the second |
| JsPlugin.JsVisitRewritesArguments | index.js:24-72 | the reassigned arguments are the first argument, the props with each `src` renumbered and every other property kept in place, then the remaining arguments unchanged |
| JsPlugin.JsVisitImportsSources | index.js:35-62 | the name each rewritten `src` uses is bound by an import of the file its image was written to |
| JsPlugin.FoldJs | index.js:154-163 | visiting the collected calls fails exactly when one of their images cannot be loaded; otherwise one import per `src` has been recorded |
| JsPlugin.JsWalk | index.js:23-73 | the walk of a document fails exactly when one of its images cannot be loaded; otherwise the invariant holds and the counter equals the number of `src` properties |
| JsPlugin.JsTransform | index.js:16-75 | a transform fails with the empty-history error when the document has no path, and otherwise fails exactly when one of its images cannot be loaded |
| JsPlugin.ReversedImportsBind | index.js:78-85 | imports binding `static_image_1` to `static_image_<n>`, reversed, bind the names from n down to 1, and no two bind the same name |
| JsPlugin.PrependedImports | index.js:78-85 | once prepended, the k-th statement from the front binds `static_image_<n - k>` |
| JsPlugin.JsTransformReplaysSites | index.js:16-75 | after the imports, the output program is the document with every call site rewritten by the answer its visit gives in the state the earlier sites left |
| JsPlugin.JsTransformImports | index.js:74 | a successful transform puts exactly one import per `src` property in front of the program, with pairwise distinct names, and writes one file per `src` property |
| Findings.Base64PathHasSubdirectory | index.js:59 | when the third digest byte ends in six one bits, the older variant's cache file name has a `/` after three characters |
| Findings.HexCachePathIsFlat | src/index.ts:162 | the hex-named cache file sits directly inside the cache directory |
| Findings.StartVisitors | index.js:35-49 | as written, each visitor takes the next count synchronously, and only the local images are named before any fetch settles |
| Findings.RemoteThenLocalCollide | index.js:35-62 | as written, a remote image followed by a local image are both named `static_image_2` |
| Findings.SequentialNumbers | index.js:35 | with the count read right after it is taken, sites are numbered in strictly increasing order |

## Left out

- Asynchrony. The visitors are run one after another, in the pre-order in
  which they were collected. The source starts them all at once and their
  file reads, fetches and writes interleave. The model gives the outcome
  when each visitor's I/O completes before the next visitor starts. The
  one interleaving effect that changes names is in `Findings`.
- Import order in the newer variant. The map keeps insertion order, which in
  the source is the order in which the first `images.set` of each site
  completes. The model inserts in site order.
- The older variant's `node_fs.writeFile` callback is fire-and-forget, and
  its error is thrown outside the transform. The model records each write
  and does not model the write failing.
- A failing `mkdirSync` for the cache directory (src/index.ts:77,
  index.js:15). The call is not recursive, so it throws when the parent
  directory is missing, and attaching the plugin then fails. The model
  assumes creating the directory succeeds. `Config.TsCacheDirectory`,
  `Config.JsCacheDirectory` and `TsPlugin.Attach` hold under that
  assumption.
- `console.warn`, `vfile.info` and the `vfile.path` assignment. No output
  depends on these. The `vfile.dirname` assignment is modelled: the visits
  resolve relative sources against it.
- Node's `path.resolve`, `path.dirname` and the WHATWG URL parser. These are
  oracle functions of `Host`. `Paths.Extname` follows Node's POSIX
  `extname` rule.
- SHA-256 and `randomUUID`. These are oracle functions of `Host`. The UUID
  oracle is assumed to return distinct values (`TsPlugin.UuidsDistinct`)
  wherever distinct import names are proved.
- `customFetch`. It becomes `Host.fetch`, which returns a status and the
  full body, or nothing when the request rejects. Header handling, streaming
  and any retry policy are not part of these sources.
- The `if (!url) return;` branch and the throws inside `assertAndReturn`.
  Both are unreachable. `new URL` either returns or throws, and the entry
  being read was always set just before.
- `if (!buffer) throw` in the older variant. It is unreachable, because both
  branches above it set `buffer` or throw.
- The newer variant's map is keyed by the `src` property node. The model
  keys it by (document number, call-site number). Each call's first `src`
  property is its own node, so the two keyings agree.
- `index.d.ts` holds only type declarations. `src/hash.spec.ts` checks
  only that the digest is a string.
- Where the two variants differ, or behave in a way a reader might not
  expect:
  - The newer variant drops the arguments after the second
    (`VisitRewritesArguments`). The older variant keeps them.
  - The newer variant swallows a failing image and keeps its call. The older
    variant fails the whole transform.
  - The older variant does not strip a query or fragment from the extension,
    so `photo.tar.gz?x=1` gives `.gz?x=1`.
  - The newer variant dedups by property node, so two call sites with the
    same `src` string get two imports. The older variant does not dedup at
    all.
  - The older variant names files by base64, not hex, digest.

## Findings

| source | as written | input that shows it | evidently intended | confidence | as-written member | corrected member |
|---|---|---|---|---|---|---|
| index.js:59 | the cache file is named by the base64 digest, whose alphabet includes `/` | an image whose digest's third byte ends in six one bits, one image in 64: the path becomes `<cache>/abc/<rest>`, in a sub-directory nobody created, so the write fails | a file name that is a single path segment, as the hex digest of the newer variant gives | not executed | Findings.Base64PathHasSubdirectory | Findings.HexCachePathIsFlat |
| index.js:35-62 | `imageCounter` is read after `await _fetch(...)`, while `matches.map` has started every visitor | a remote `src` followed by a local `src`: both imports bind `static_image_2`; a duplicate import binding is an early SyntaxError, so the compiled page fails to build | each `src` numbered with the count it took, 1 to n in order, all names distinct | not executed | Findings.RemoteThenLocalCollide | Findings.SequentialNumbers, JsPlugin.JsTransformImports |
| src/index.ts:79-83 | the `images` map is created once per plugin instance, and all its declarations are prepended to every document | transforming a document with an image and then a document without image calls: the second gets the first one's import | each document receives only the imports of its own call sites | not executed | TsPlugin.TransformLeaks | TsPlugin.IsolatedImportsOwnSites |

The older variant's model (`JsPlugin`) numbers sites as
`Findings.SequentialNumbers` does. `JsPlugin.JsTransformImports` proves its
import names distinct. `TsPlugin.TransformIsolated` is the newer variant with
a map per document. `TsPlugin.IsolatedWithoutMatches` shows that it leaves a
document without image calls unchanged.
