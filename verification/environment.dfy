/** Everything the plugin asks of the world outside the syntax tree, as
    explicit oracle values: URL parsing, Node's path resolution, the file
    system, the network, the SHA-256 digest and the UUID generator. The model
    treats the file system as a fixed snapshot while one document is
    transformed, and each of these as a pure function of its arguments. */
module Environment {
  import opened Wrappers
  import opened Encoding
  import opened Text

  /** What `fetch` resolves with: the status and the full body. */
  datatype Response = Response(status: int, body: Buffer)

  datatype Host = Host(
    /** `new URL(s).href`, or None when the constructor throws (a relative path). */
    parseUrl: string -> Option<string>,
    /** `node_path.resolve(base, reference)`. */
    resolve: (string, string) -> string,
    /** `node_path.resolve(path)` against the working directory. */
    absolute: string -> string,
    /** `node_path.dirname(path)`. */
    dirname: string -> string,
    /** The content of a file, or None when reading fails. */
    readFile: string -> Option<Buffer>,
    /** The response to a request for a URL, or None when the request rejects. */
    fetch: string -> Option<Response>,
    /** The 32-byte SHA-256 digest of a buffer. */
    sha256: Buffer -> Buffer,
    /** The k-th UUID drawn in this process, dashes removed. */
    uuid: nat -> string,
    /** Whether writing a file succeeds. */
    writeFile: (string, Buffer) -> bool)

  /** A file the plugin wrote: its path and content. */
  datatype Write = Write(path: string, content: Buffer)

  datatype LoadError = ReadFailed(path: string) | FetchFailed(href: string)

  /** Whether `source` names a remote image (the URL constructor accepts it). */
  predicate IsRemote(host: Host, source: string) {
    host.parseUrl(source).Some?
  }

  /** The bytes of an image reference: a URL is fetched and must answer 200;
      anything else is a path, resolved against `base` and read from disk. */
  function Load(host: Host, base: string, source: string): (r: Result<Buffer, LoadError>)
    ensures IsRemote(host, source) ==>
              var href := host.parseUrl(source).value;
              (r.Success? <==> host.fetch(href).Some? && host.fetch(href).value.status == 200)
    ensures IsRemote(host, source) && r.Success? ==>
              r.value == host.fetch(host.parseUrl(source).value).value.body
    ensures !IsRemote(host, source) ==>
              (r.Success? <==> host.readFile(host.resolve(base, source)).Some?)
    ensures !IsRemote(host, source) && r.Success? ==>
              Some(r.value) == host.readFile(host.resolve(base, source))
  {
    match host.parseUrl(source)
    case Some(href) =>
      (match host.fetch(href)
       case None => Failure(FetchFailed(href))
       case Some(response) =>
         if response.status != 200 then Failure(FetchFailed(href)) else Success(response.body))
    case None =>
      var path := host.resolve(base, source);
      (match host.readFile(path)
       case None => Failure(ReadFailed(path))
       case Some(content) => Success(content))
  }

  /** `path` names a file `<digest><extension>` directly under `cache`, for a
      non-empty digest of `width` characters. */
  predicate InCache(path: string, cache: string, width: nat, extension: string) {
    && |path| == |cache| + 1 + width + |extension|
    && StartsWith(path, cache + "/")
    && EndsWith(path, extension)
  }

  /** `${cache}/${digest}${extension}`: where an image is cached. */
  function CacheFilePath(cache: string, digest: string, extension: string): string {
    cache + "/" + digest + extension
  }
}
