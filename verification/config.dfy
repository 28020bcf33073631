/** The plugin's options: the cache directory, where images are copied to.
    The newer variant (src/index.ts:64-75) insists on a directory under
    `public/` and moves any other directory there; the older one
    (index.js:9-13) only insists on a non-empty directory. */
module Config {
  import opened Wrappers
  import opened Text
  import opened Paths
  import opened Environment

  datatype ConfigError = CacheDirectoryRequired

  /** `/^(\.\/)?public\/.*$/.test(dir)`: `public/` or `./public/` at the
      start, and no line terminator after it (`.` does not match one). */
  predicate MatchesPublic(dir: string): (b: bool)
    ensures b ==> StartsWith(dir, "public/") || StartsWith(dir, "./public/")
    ensures !HasLineTerminator(dir) ==>
              (b <==> StartsWith(dir, "public/") || StartsWith(dir, "./public/"))
  {
    || (StartsWith(dir, "public/") && !HasLineTerminator(dir[7..]))
    || (StartsWith(dir, "./public/") && !HasLineTerminator(dir[9..]))
  }

  /** `dir.replace(/^\.\//, "")`. */
  function DropDotSlash(dir: string): (r: string)
    ensures StartsWith(dir, "./") ==> dir == "./" + r
    ensures !StartsWith(dir, "./") ==> r == dir
  {
    if StartsWith(dir, "./") then dir[2..] else dir
  }

  /** The configured directory, or the error for a missing or empty one; a
      directory outside `public/` becomes `public/<dir>` with a leading `./`
      dropped. */
  function NormaliseCacheDirectory(option: Option<string>): (r: Result<string, ConfigError>)
    ensures r.Failure? <==> option.None? || option.value == ""
    ensures r.Success? ==> StartsWith(r.value, "public/") || StartsWith(r.value, "./public/")
    ensures r.Success? && MatchesPublic(option.value) ==> r.value == option.value
    ensures r.Success? && !MatchesPublic(option.value) ==>
              r.value == "public/" + DropDotSlash(option.value)
  {
    match option
    case None => Failure(CacheDirectoryRequired)
    case Some(dir) =>
      if dir == "" then Failure(CacheDirectoryRequired)
      else if MatchesPublic(dir) then Success(dir)
      else Success("public/" + DropDotSlash(dir))
  }

  /** Without line terminators, a normalised directory passes the test, so
      normalising twice is normalising once. */
  lemma NormaliseIdempotent(dir: string)
    requires dir != "" && !HasLineTerminator(dir)
    ensures var r := NormaliseCacheDirectory(Some(dir));
            r.Success? && MatchesPublic(r.value) && NormaliseCacheDirectory(Some(r.value)) == r
  {
    var r := NormaliseCacheDirectory(Some(dir)).value;
    if !MatchesPublic(dir) {
      var d := DropDotSlash(dir);
      assert r == "public/" + d;
      assert r[..7] == "public/";
      assert r[7..] == d;
      assert d == dir[|dir| - |d|..];
    }
  }

  /** `node_path.resolve(dir).replace(/\/+$/, "")`: the absolute cache
      directory without trailing slashes. */
  function CacheRoot(host: Host, dir: string): (cache: string)
    ensures |cache| == 0 || cache[|cache| - 1] != '/'
    ensures StartsWith(host.absolute(dir), cache)
  {
    StripTrailingSlashes(host.absolute(dir))
  }

  /** The newer variant's option handling: the cache directory it will write to. */
  function TsCacheDirectory(host: Host, option: Option<string>): (r: Result<string, ConfigError>)
    ensures r.Failure? <==> option.None? || option.value == ""
    ensures r.Success? ==> exists d :: NormaliseCacheDirectory(option) == Success(d) &&
                                       r.value == CacheRoot(host, d)
  {
    var dir :- NormaliseCacheDirectory(option);
    Success(CacheRoot(host, dir))
  }

  /** The older variant's option handling: any non-empty directory, as given. */
  function JsCacheDirectory(host: Host, option: Option<string>): (r: Result<string, ConfigError>)
    ensures r.Failure? <==> option.None? || option.value == ""
    ensures r.Success? ==> r.value == CacheRoot(host, option.value)
  {
    match option
    case None => Failure(CacheDirectoryRequired)
    case Some(dir) => if dir == "" then Failure(CacheDirectoryRequired) else Success(CacheRoot(host, dir))
  }
}
