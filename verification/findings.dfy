/** Three places where the plugin does not do what it evidently means to:
    each as written, next to the behaviour the rest of the model gives. */
module Findings {
  import opened Wrappers
  import opened Text
  import opened Encoding
  import opened Paths
  import opened Environment
  import opened JsPlugin
  import opened TsPlugin

  // ---------------------------------------------------------------------
  // 1. The older variant names cached files by their base64 digest
  //    (index.js:59, 108-110). The base64 alphabet contains `/`, so the file
  //    can land in a sub-directory of the cache that nobody created.

  /** The part of a cache path after the cache directory and its `/`. */
  function FileName(cache: string, path: string): string
    requires StartsWith(path, cache + "/")
  {
    path[|cache| + 1..]
  }

  /** As written: when the third byte of an image's digest ends in six one
      bits (one digest in 64), the older variant's cache path puts the file
      under a directory named after the first three digest characters. */
  lemma Base64PathHasSubdirectory(ctx: JsContext, value: string, buffer: Buffer)
    requires var digest := ctx.host.sha256(buffer);
             |digest| >= 3 && digest[2] as int % 64 == 63
    ensures var path := JsCachePath(ctx, value, buffer);
            && StartsWith(path, ctx.cache + "/")
            && FileName(ctx.cache, path)[3] == '/'
  {
    var digest := Base64(ctx.host.sha256(buffer));
    Base64SlashInside(ctx.host.sha256(buffer));
    var ext := GetExtension(value);
    var path := JsCachePath(ctx, value, buffer);
    assert path == (ctx.cache + "/") + (digest + ext);
    assert FileName(ctx.cache, path) == digest + ext;
    assert (digest + ext)[3] == digest[3];
  }

  /** Corrected: the hex digest the newer variant uses, with an extension
      that has no `/`, names a file directly inside the cache directory. */
  lemma HexCachePathIsFlat(host: Host, cache: string, d: ImageData)
    requires '/' !in d.fileExtension
    ensures var path := CachePath(host, cache, d);
            && StartsWith(path, cache + "/")
            && '/' !in FileName(cache, path)
  {
    var digest := Hex(host.sha256(d.buffer));
    HexHasNoSlash(host.sha256(d.buffer));
    var path := CachePath(host, cache, d);
    assert path == (cache + "/") + (digest + d.fileExtension);
    assert FileName(cache, path) == digest + d.fileExtension;
  }

  // ---------------------------------------------------------------------
  // 2. The older variant's counter is read after an await (index.js:35,
  //    49-62): `matches.map(asyncVisitor)` starts every visitor at once, and
  //    a visitor that fetches reads `imageCounter` only once its fetch has
  //    settled, by which time later visitors have counted their images too.

  /** Where the image of a call site comes from. */
  datatype Origin = LocalFile | RemoteFile

  /** As written, for calls with one `src` each: the synchronous part of the
      visitors in the order they are started. Each takes the next count; a
      local image is read with `readFileSync` and named at once, a remote
      one waits for its fetch. The names given so far and the counter. */
  function StartVisitors(sites: seq<Origin>, counter: nat): (r: (seq<Option<nat>>, nat))
    ensures |r.0| == |sites| && r.1 == counter + |sites|
    ensures forall i :: 0 <= i < |sites| ==> (r.0[i].Some? <==> sites[i] == LocalFile)
    ensures forall i :: 0 <= i < |sites| && sites[i] == LocalFile ==> r.0[i] == Some(counter + i + 1)
  {
    if sites == [] then ([], counter)
    else
      var c := counter + 1;
      var rest := StartVisitors(sites[1..], c);
      ([if sites[0] == LocalFile then Some(c) else None] + rest.0, rest.1)
  }

  /** As written: no fetch settles before every visitor has started, so each
      remote site is named with the final count. The number in each site's
      `static_image_<n>`. */
  function RacedNumbers(sites: seq<Origin>): (ns: seq<nat>)
    ensures |ns| == |sites|
  {
    var started := StartVisitors(sites, 0);
    seq(|sites|, i requires 0 <= i < |sites| =>
          if started.0[i].Some? then started.0[i].value else started.1)
  }

  /** Every remote site gets the number of the last site, so two remote
      images, or a remote image followed at the end by a local one, are
      imported under the same name. */
  lemma RemoteSitesShareLastNumber(sites: seq<Origin>, i: nat)
    requires i < |sites| && sites[i] == RemoteFile
    ensures RacedNumbers(sites)[i] == |sites|
    ensures sites[|sites| - 1] == LocalFile ==> RacedNumbers(sites)[|sites| - 1] == |sites|
  {
  }

  /** The smallest case: a remote image, then a local one, both become
      `static_image_2`. */
  lemma RemoteThenLocalCollide()
    ensures RacedNumbers([RemoteFile, LocalFile]) == [2, 2]
  {
    RemoteSitesShareLastNumber([RemoteFile, LocalFile], 0);
  }

  /** Corrected: with the count read right after it is taken, the sites are
      numbered one to n in order, and no two share a number. */
  function SequentialNumbers(sites: seq<Origin>): (ns: seq<nat>)
    ensures |ns| == |sites|
    ensures forall i, j :: 0 <= i < j < |sites| ==> ns[i] < ns[j]
  {
    seq(|sites|, i requires 0 <= i < |sites| => i + 1)
  }

  /** The corrected numbering agrees with the racing one wherever no fetch is
      awaited: a document of local images only is numbered the same both
      ways. */
  lemma LocalSitesNumberedInOrder(sites: seq<Origin>)
    requires forall i :: 0 <= i < |sites| ==> sites[i] == LocalFile
    ensures RacedNumbers(sites) == SequentialNumbers(sites)
  {
  }
}
