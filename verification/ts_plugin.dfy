/** The newer variant of the plugin (src/index.ts:59-209).

    One plugin instance keeps one image table for every document it
    transforms. For each image call it finds the first `src` property; the
    first time it meets that property it draws a UUID, reads or fetches the
    image and records it; then it writes the image to the cache under its
    SHA-256 hex digest, records the import that binds the UUID-based name to
    that file, and replaces the `src` value by that name. A call site whose
    image cannot be loaded or written is left as it was: the per-site
    promises are only awaited with `Promise.allSettled`. Finally every
    recorded import declaration is put in front of the program. */
module TsPlugin {
  import opened Wrappers
  import opened Estree
  import opened Text
  import opened Encoding
  import opened Paths
  import opened Environment
  import opened Matcher
  import opened Traverse
  import opened Imports
  import opened Config

  /** The identity of a `src` property node, which keys the table: the first
      `src` property of the `site`-th image call (in pre-order) of the
      `document`-th document the instance transformed. Distinct property
      objects get distinct keys, and no key is ever met twice. */
  datatype PropertyKey = PropertyKey(document: nat, site: nat)

  datatype ImageData = ImageData(
    uuid: string,
    /** The `src` property with its value replaced by the import's name. */
    replacement: Node,
    fileExtension: string,
    importedAs: string,
    importedFrom: Option<string>,
    buffer: Buffer,
    importDeclaration: Option<Node>)

  datatype Entry = Entry(key: PropertyKey, data: ImageData)

  /** The `images` map, as its entries in insertion order. */
  type Table = seq<Entry>

  function Find(t: Table, k: PropertyKey): (r: Option<nat>)
    ensures r.Some? ==> r.value < |t| && t[r.value].key == k
    ensures r.Some? ==> forall i :: 0 <= i < r.value ==> t[i].key != k
    ensures r.None? ==> forall i :: 0 <= i < |t| ==> t[i].key != k
  {
    if t == [] then None
    else if t[0].key == k then Some(0)
    else match Find(t[1..], k)
      case None => None
      case Some(i) => Some(i + 1)
  }

  predicate Has(t: Table, k: PropertyKey) {
    Find(t, k).Some?
  }

  function Get(t: Table, k: PropertyKey): ImageData
    requires Has(t, k)
  {
    t[Find(t, k).value].data
  }

  /** `images.set(k, d)`: an existing entry is updated where it stands, a new
      one goes at the end. */
  function Put(t: Table, k: PropertyKey, d: ImageData): (r: Table)
    ensures Has(r, k) && Get(r, k) == d
    ensures |r| == if Has(t, k) then |t| else |t| + 1
    ensures forall i :: 0 <= i < |t| && t[i].key != k ==> r[i] == t[i]
    ensures Frame(t, r, k)
    ensures Has(t, k) ==> r == t[Find(t, k).value := Entry(k, d)]
    ensures !Has(t, k) ==> r == t + [Entry(k, d)]
  {
    match Find(t, k)
    case Some(i) =>
      var r := t[i := Entry(k, d)];
      assert forall k' :: k' != k ==> Find(r, k') == Find(t, k') by {
        forall k' | k' != k
          ensures Find(r, k') == Find(t, k')
        {
          FindSameKeys(t, r, k');
        }
      }
      assert Find(r, k) == Some(i) by {
        FindFirst(r, k, i);
      }
      r
    case None =>
      var r := t + [Entry(k, d)];
      assert forall k' :: k' != k ==> Find(r, k') == Find(t, k') by {
        forall k' | k' != k
          ensures Find(r, k') == Find(t, k')
        {
          FindAppend(t, Entry(k, d), k');
        }
      }
      assert Find(r, k) == Some(|t|) by {
        FindFirst(r, k, |t|);
      }
      r
  }

  lemma {:induction false} FindFirst(t: Table, k: PropertyKey, i: nat)
    requires i < |t| && t[i].key == k
    requires forall j :: 0 <= j < i ==> t[j].key != k
    ensures Find(t, k) == Some(i)
  {
    if i > 0 {
      FindFirst(t[1..], k, i - 1);
    }
  }

  lemma {:induction false} FindSameKeys(t: Table, r: Table, k: PropertyKey)
    requires |t| == |r|
    requires forall i :: 0 <= i < |t| ==> (t[i].key == k <==> r[i].key == k)
    ensures Find(t, k) == Find(r, k)
  {
    if t != [] {
      FindSameKeys(t[1..], r[1..], k);
    }
  }

  lemma {:induction false} FindAppend(t: Table, e: Entry, k: PropertyKey)
    requires e.key != k
    ensures Find(t + [e], k) == Find(t, k)
  {
    if t != [] {
      assert (t + [e])[1..] == t[1..] + [e];
      FindAppend(t[1..], e, k);
    }
  }

  predicate KeysUnique(t: Table) {
    forall i, j :: 0 <= i < j < |t| ==> t[i].key != t[j].key
  }

  /** A table whose keys are unique stays so under `Put`: the map is a map. */
  lemma PutKeepsKeysUnique(t: Table, k: PropertyKey, d: ImageData)
    requires KeysUnique(t)
    ensures KeysUnique(Put(t, k, d))
  {
    var r := Put(t, k, d);
    if !Has(t, k) {
      assert r == t + [Entry(k, d)];
    } else {
      var i := Find(t, k).value;
      assert r == t[i := Entry(k, d)];
    }
  }

  /** `__RecmaStaticImage<uuid>`. */
  function ImportName(id: string): string {
    "__RecmaStaticImage" + id
  }

  /** Distinct UUIDs give distinct import names. */
  lemma ImportNameInjective(a: string, b: string)
    ensures ImportName(a) == ImportName(b) <==> a == b
  {
    PrefixCancel("__RecmaStaticImage", a, b);
  }

  /** What the plugin records when it first meets a `src` property. */
  function NewImage(id: string, src: Node, buffer: Buffer): (d: ImageData)
    requires IsSrcProperty(src)
  {
    var name := ImportName(id);
    ImageData(id, src.(value := Identifier(name)), SourceExtension(SrcValue(src)),
              name, None, buffer, None)
  }


  /** `r` is `t` with at most the entry for `key` changed or added: the keys
      already there stay where they are, every other entry is untouched, and
      whatever is new is for `key`. */
  predicate Frame(t: Table, r: Table, key: PropertyKey) {
    && |t| <= |r|
    && (forall i :: 0 <= i < |t| ==> r[i].key == t[i].key)
    && (forall i :: 0 <= i < |t| && t[i].key != key ==> r[i] == t[i])
    && (forall i :: |t| <= i < |r| ==> r[i].key == key)
  }

  lemma FrameTrans(a: Table, b: Table, c: Table, key: PropertyKey)
    requires Frame(a, b, key) && Frame(b, c, key)
    ensures Frame(a, c, key)
  {
  }

  /** The instance's view while it transforms one document. */
  datatype Context = Context(host: Host, cache: string, dirname: string, document: nat)

  /** What the visits of one document thread from site to site: the table,
      how many UUIDs have been drawn, which site comes next, and the files
      written so far. */
  datatype State = State(images: Table, uuidsDrawn: nat, site: nat, writes: seq<Write>)

  /** The first `images.set`: draw a UUID and load the image. Whether the
      entry is there afterwards, and the state. */
  function Register(ctx: Context, key: PropertyKey, src: Node, s: State): (r: (bool, State))
    requires IsSrcProperty(src)
    ensures r.0 <==> Has(r.1.images, key)
    ensures Frame(s.images, r.1.images, key)
    ensures Has(s.images, key) ==> r.1 == s
    ensures !Has(s.images, key) ==> r.1.uuidsDrawn == s.uuidsDrawn + 1
    ensures !Has(s.images, key) ==>
              (r.0 <==> Load(ctx.host, ctx.dirname, SrcValue(src)).Success?)
    ensures !Has(s.images, key) && r.0 ==>
              var d := Get(r.1.images, key);
              && d == NewImage(ctx.host.uuid(s.uuidsDrawn), src, d.buffer)
              && Success(d.buffer) == Load(ctx.host, ctx.dirname, SrcValue(src))
    ensures !r.0 ==> r.1.images == s.images
    ensures r.1.site == s.site && r.1.writes == s.writes
  {
    if Has(s.images, key) then (true, s)
    else
      var id := ctx.host.uuid(s.uuidsDrawn);
      var drawn := s.(uuidsDrawn := s.uuidsDrawn + 1);
      match Load(ctx.host, ctx.dirname, SrcValue(src))
      case Failure(_) => (false, drawn)
      case Success(buffer) => (true, drawn.(images := Put(s.images, key, NewImage(id, src, buffer))))
  }

  /** Where an image is cached: the hex SHA-256 digest of its bytes and the
      extension of its `src`. */
  function CachePath(host: Host, cache: string, d: ImageData): (path: string)
    ensures InCache(path, cache, 2 * |host.sha256(d.buffer)|, d.fileExtension)
  {
    var path := CacheFilePath(cache, Hex(host.sha256(d.buffer)), d.fileExtension);
    assert path == (cache + "/") + Hex(host.sha256(d.buffer)) + d.fileExtension;
    path
  }

  /** The cache file's name is the image's digest in hex: its characters are
      hex digits, so it has no `/`, and they decode to the digest. */
  lemma CachePathNamesDigest(host: Host, cache: string, d: ImageData)
    ensures var path := CachePath(host, cache, d);
            var name := path[|cache| + 1..|path| - |d.fileExtension|];
            && (forall i :: 0 <= i < |name| ==> IsHexChar(name[i]))
            && HexDecode(name) == host.sha256(d.buffer)
  {
    var digest := Hex(host.sha256(d.buffer));
    HexRoundTrip(host.sha256(d.buffer));
    var path := CachePath(host, cache, d);
    assert path == (cache + "/") + digest + d.fileExtension;
    assert path[|cache| + 1..|path| - |d.fileExtension|] == digest;
  }

  /** The second `images.set`: write the image to the cache and record the
      import of the written file; nothing when the write fails. */
  function Commit(ctx: Context, key: PropertyKey, s: State): (r: Option<State>)
    requires Has(s.images, key)
    ensures var prev := Get(s.images, key);
            r.Some? <==> ctx.host.writeFile(CachePath(ctx.host, ctx.cache, prev), prev.buffer)
    ensures r.Some? ==>
              var prev := Get(s.images, key);
              var path := CachePath(ctx.host, ctx.cache, prev);
              && Has(r.value.images, key)
              && Get(r.value.images, key) ==
                   prev.(importedFrom := Some(path),
                         importDeclaration := Some(DefaultImport(prev.importedAs, path)))
              && r.value.writes == s.writes + [Write(path, prev.buffer)]
    ensures r.Some? ==> r.value.uuidsDrawn == s.uuidsDrawn && r.value.site == s.site
    ensures r.Some? ==> Frame(s.images, r.value.images, key) && |r.value.images| == |s.images|
  {
    var prev := Get(s.images, key);
    var path := CachePath(ctx.host, ctx.cache, prev);
    if !ctx.host.writeFile(path, prev.buffer) then None
    else
      var data := prev.(importedFrom := Some(path),
                        importDeclaration := Some(DefaultImport(prev.importedAs, path)));
      Some(s.(images := Put(s.images, key, data), writes := s.writes + [Write(path, prev.buffer)]))
  }

  /** The image `src` names loads, and writing it to its cache file
      succeeds: what a newly met `src` property needs to be replaced. */
  predicate Stored(ctx: Context, src: Node)
    requires IsSrcProperty(src)
  {
    && Load(ctx.host, ctx.dirname, SrcValue(src)).Success?
    && var buffer := Load(ctx.host, ctx.dirname, SrcValue(src)).value;
       ctx.host.writeFile(CacheFilePath(ctx.cache, Hex(ctx.host.sha256(buffer)), SourceExtension(SrcValue(src))), buffer)
  }

  /** The properties map of the rewrite: only the property at `i` changes. */
  function Mask(n: nat, i: nat, p: Node): (mask: seq<Option<Node>>)
    ensures |mask| == n
    ensures forall j :: 0 <= j < n ==> (mask[j].Some? <==> j == i)
    ensures i < n ==> mask[i] == Some(p)
  {
    seq(n, j => if j == i then Some(p) else None)
  }

  /** The visit of a call whose first `src` property is `props[i]`: register
      it, write it, and swap it for its replacement. A failing load or write
      rejects the visitor's promise before the arguments are reassigned, so
      the call is kept. */
  function VisitSource(ctx: Context, key: PropertyKey, props: seq<Node>, i: nat, s: State): (r: (Rewrite, State))
    requires i < |props| && IsSrcProperty(props[i])
    ensures Frame(s.images, r.1.images, key)
    ensures r.1.site == s.site
    ensures r.1.uuidsDrawn == s.uuidsDrawn || r.1.uuidsDrawn == s.uuidsDrawn + 1
    ensures Has(s.images, key) ==> r.1.uuidsDrawn == s.uuidsDrawn
    ensures r.0.Keep? ==> r.1.writes == s.writes
    ensures r.0.Replace? ==>
              && Has(r.1.images, key)
              && var d := Get(r.1.images, key);
              && d.importDeclaration == Some(DefaultImport(d.importedAs, CachePath(ctx.host, ctx.cache, d)))
              && r.1.writes == s.writes + [Write(CachePath(ctx.host, ctx.cache, d), d.buffer)]
              && r.0 == Replace(Mask(|props|, i, d.replacement), false)
    ensures !Has(s.images, key) ==> r.1.uuidsDrawn == s.uuidsDrawn + 1
    ensures !Has(s.images, key) ==> (r.0.Replace? <==> Stored(ctx, props[i]))
    ensures Has(s.images, key) ==>
              var prev := Get(s.images, key);
              (r.0.Replace? <==> ctx.host.writeFile(CachePath(ctx.host, ctx.cache, prev), prev.buffer))
    ensures r.0.Replace? && !Has(s.images, key) ==>
              var d := Get(r.1.images, key);
              && d.replacement == props[i].(value := Identifier(d.importedAs))
              && d.importedAs == ImportName(ctx.host.uuid(s.uuidsDrawn))
  {
    var registered := Register(ctx, key, props[i], s);
    if !registered.0 then (Keep, registered.1)
    else
      match Commit(ctx, key, registered.1)
      case None => (Keep, registered.1)
      case Some(committed) =>
        FrameTrans(s.images, registered.1.images, committed.images, key);
        var d := Get(committed.images, key);
        assert d.replacement == Get(registered.1.images, key).replacement;
        assert d.importedAs == Get(registered.1.images, key).importedAs;
        (Replace(Mask(|props|, i, d.replacement), false), committed)
  }

  /** The call-site visitor (src/index.ts:98-201), for the `site`-th image
      call of the document. */
  function Visit(ctx: Context, call: Node, s: State): (r: (Rewrite, State))
    ensures r.1.site == s.site + 1
    ensures Frame(s.images, r.1.images, PropertyKey(ctx.document, s.site))
    ensures FirstSrc(PropsOf(call)).None? ==> r.0 == Keep && r.1 == s.(site := s.site + 1)
    ensures r.1.uuidsDrawn == s.uuidsDrawn || r.1.uuidsDrawn == s.uuidsDrawn + 1
    ensures r.0.Keep? ==> r.1.writes == s.writes
    ensures |r.1.images| <= |s.images| + 1
    ensures FirstSrc(PropsOf(call)).Some? && !Has(s.images, PropertyKey(ctx.document, s.site)) ==>
              && r.1.uuidsDrawn == s.uuidsDrawn + 1
              && (r.0.Replace? <==> Stored(ctx, PropsOf(call)[FirstSrc(PropsOf(call)).value]))
  {
    var props := PropsOf(call);
    var next := s.(site := s.site + 1);
    match FirstSrc(props)
    case None => (Keep, next)
    case Some(i) => VisitSource(ctx, PropertyKey(ctx.document, s.site), props, i, next)
  }

  /** One of the first `n` UUIDs drawn is `u`. */
  ghost predicate Drew(host: Host, u: string, n: nat) {
    exists k: nat :: k < n && host.uuid(k) == u
  }

  /** `crypto.randomUUID` never answers the same twice. */
  ghost predicate UuidsDistinct(host: Host) {
    forall a: nat, b: nat :: a != b ==> host.uuid(a) != host.uuid(b)
  }

  /** An entry as the visitor leaves it: named after its UUID, its
      replacement bound to that name, and, once written, the import of its
      cache file. */
  predicate WellFormed(host: Host, cache: string, d: ImageData) {
    && d.importedAs == ImportName(d.uuid)
    && d.replacement.Property? && d.replacement.value == Identifier(d.importedAs)
    && '/' !in d.fileExtension
    && (d.importedFrom.Some? <==> d.importDeclaration.Some?)
    && (d.importedFrom.Some? ==> d.importedFrom.value == CachePath(host, cache, d))
    && (d.importDeclaration.Some? ==>
          d.importDeclaration.value == DefaultImport(d.importedAs, CachePath(host, cache, d)))
  }

  /** What holds of the table between visits: every entry well formed, its
      UUID one of those drawn, and no UUID used twice. */
  ghost predicate TableInv(host: Host, cache: string, t: Table, drawn: nat) {
    && (forall i :: 0 <= i < |t| ==> WellFormed(host, cache, t[i].data))
    && (forall i :: 0 <= i < |t| ==> Drew(host, t[i].data.uuid, drawn))
    && (forall i, j :: 0 <= i < j < |t| ==> t[i].data.uuid != t[j].data.uuid)
  }

  lemma TableInvMoreDraws(host: Host, cache: string, t: Table, n: nat, m: nat)
    requires TableInv(host, cache, t, n) && n <= m
    ensures TableInv(host, cache, t, m)
  {
    forall i | 0 <= i < |t|
      ensures Drew(host, t[i].data.uuid, m)
    {
      assert Drew(host, t[i].data.uuid, n);
      var k: nat :| k < n && host.uuid(k) == t[i].data.uuid;
    }
  }

  /** Putting a well-formed entry keeps the invariant when it keeps the UUID
      of the entry it updates, or brings a UUID no entry has. */
  lemma PutKeepsInv(host: Host, cache: string, t: Table, k: PropertyKey, d: ImageData, drawn: nat)
    requires TableInv(host, cache, t, drawn)
    requires WellFormed(host, cache, d) && Drew(host, d.uuid, drawn)
    requires Has(t, k) ==> d.uuid == Get(t, k).uuid
    requires !Has(t, k) ==> forall i :: 0 <= i < |t| ==> t[i].data.uuid != d.uuid
    ensures TableInv(host, cache, Put(t, k, d), drawn)
  {
    var r := Put(t, k, d);
    if Has(t, k) {
      var j := Find(t, k).value;
      assert r == t[j := Entry(k, d)];
      forall i | 0 <= i < |r|
        ensures r[i].data == if i == j then d else t[i].data
      {
      }
      UuidsKept(t, r);
    } else {
      assert r == t + [Entry(k, d)];
      forall i | 0 <= i < |r|
        ensures r[i].data == if i == |t| then d else t[i].data
      {
      }
    }
  }

  /** Entries that keep their UUIDs keep them distinct. */
  lemma UuidsKept(t: Table, r: Table)
    requires |t| == |r|
    requires forall i :: 0 <= i < |t| ==> r[i].data.uuid == t[i].data.uuid
    requires forall i, j :: 0 <= i < j < |t| ==> t[i].data.uuid != t[j].data.uuid
    ensures forall i, j :: 0 <= i < j < |r| ==> r[i].data.uuid != r[j].data.uuid
  {
  }

  /** A fresh UUID is none of those already in a table that drew fewer. */
  lemma FreshUuid(host: Host, cache: string, t: Table, n: nat)
    requires UuidsDistinct(host) && TableInv(host, cache, t, n)
    ensures forall i :: 0 <= i < |t| ==> t[i].data.uuid != host.uuid(n)
  {
    forall i | 0 <= i < |t|
      ensures t[i].data.uuid != host.uuid(n)
    {
      assert Drew(host, t[i].data.uuid, n);
      var k: nat :| k < n && host.uuid(k) == t[i].data.uuid;
    }
  }

  lemma RegisterKeepsInv(ctx: Context, key: PropertyKey, src: Node, s: State)
    requires IsSrcProperty(src) && UuidsDistinct(ctx.host)
    requires TableInv(ctx.host, ctx.cache, s.images, s.uuidsDrawn)
    ensures var r := Register(ctx, key, src, s).1;
            TableInv(ctx.host, ctx.cache, r.images, r.uuidsDrawn)
  {
    var r := Register(ctx, key, src, s).1;
    if !Has(s.images, key) {
      var n := s.uuidsDrawn;
      var loaded := Load(ctx.host, ctx.dirname, SrcValue(src));
      if loaded.Success? {
        var d := NewImage(ctx.host.uuid(n), src, loaded.value);
        assert r.images == Put(s.images, key, d) && r.uuidsDrawn == n + 1;
        NewImageWellFormed(ctx.host, ctx.cache, ctx.host.uuid(n), src, loaded.value);
        AddFreshKeepsInv(ctx, key, d, s.images, n);
      } else {
        assert r.images == s.images && r.uuidsDrawn == n + 1;
        TableInvMoreDraws(ctx.host, ctx.cache, s.images, n, n + 1);
      }
    }
  }

  /** A freshly registered image is well formed: not yet imported. */
  lemma NewImageWellFormed(host: Host, cache: string, id: string, src: Node, buffer: Buffer)
    requires IsSrcProperty(src)
    ensures NewImage(id, src, buffer).uuid == id
    ensures WellFormed(host, cache, NewImage(id, src, buffer))
  {
  }

  /** Adding an image under the next UUID to draw keeps the invariant. */
  lemma AddFreshKeepsInv(ctx: Context, key: PropertyKey, d: ImageData, t: Table, n: nat)
    requires UuidsDistinct(ctx.host) && TableInv(ctx.host, ctx.cache, t, n)
    requires !Has(t, key) && d.uuid == ctx.host.uuid(n) && WellFormed(ctx.host, ctx.cache, d)
    ensures TableInv(ctx.host, ctx.cache, Put(t, key, d), n + 1)
  {
    TableInvMoreDraws(ctx.host, ctx.cache, t, n, n + 1);
    assert Drew(ctx.host, d.uuid, n + 1);
    FreshUuid(ctx.host, ctx.cache, t, n);
    PutKeepsInv(ctx.host, ctx.cache, t, key, d, n + 1);
  }

  lemma CommitKeepsInv(ctx: Context, key: PropertyKey, s: State)
    requires Has(s.images, key)
    requires TableInv(ctx.host, ctx.cache, s.images, s.uuidsDrawn)
    ensures var r := Commit(ctx, key, s);
            r.Some? ==> TableInv(ctx.host, ctx.cache, r.value.images, r.value.uuidsDrawn)
  {
    var prev := Get(s.images, key);
    assert WellFormed(ctx.host, ctx.cache, prev) && Drew(ctx.host, prev.uuid, s.uuidsDrawn) by {
      assert prev == s.images[Find(s.images, key).value].data;
    }
    var path := CachePath(ctx.host, ctx.cache, prev);
    var d := prev.(importedFrom := Some(path), importDeclaration := Some(DefaultImport(prev.importedAs, path)));
    assert CachePath(ctx.host, ctx.cache, d) == path;
    PutKeepsInv(ctx.host, ctx.cache, s.images, key, d, s.uuidsDrawn);
  }

  lemma VisitSourceKeepsInv(ctx: Context, key: PropertyKey, props: seq<Node>, i: nat, s: State)
    requires i < |props| && IsSrcProperty(props[i]) && UuidsDistinct(ctx.host)
    requires TableInv(ctx.host, ctx.cache, s.images, s.uuidsDrawn)
    ensures var r := VisitSource(ctx, key, props, i, s).1;
            TableInv(ctx.host, ctx.cache, r.images, r.uuidsDrawn)
  {
    RegisterKeepsInv(ctx, key, props[i], s);
    var registered := Register(ctx, key, props[i], s);
    if registered.0 {
      CommitKeepsInv(ctx, key, registered.1);
    }
  }

  /** A call with a `src` property is visited by `VisitSource`. */
  lemma VisitDispatch(ctx: Context, call: Node, s: State)
    requires FirstSrc(PropsOf(call)).Some?
    ensures Visit(ctx, call, s) ==
              VisitSource(ctx, PropertyKey(ctx.document, s.site), PropsOf(call),
                          FirstSrc(PropsOf(call)).value, s.(site := s.site + 1))
  {
  }

  /** Each visit keeps the table invariant. */
  lemma VisitKeepsInv(ctx: Context, call: Node, s: State)
    requires UuidsDistinct(ctx.host)
    requires TableInv(ctx.host, ctx.cache, s.images, s.uuidsDrawn)
    ensures var r := Visit(ctx, call, s).1;
            TableInv(ctx.host, ctx.cache, r.images, r.uuidsDrawn)
  {
    var props := PropsOf(call);
    var next := s.(site := s.site + 1);
    if FirstSrc(props).Some? {
      var key := PropertyKey(ctx.document, s.site);
      var i := FirstSrc(props).value;
      VisitDispatch(ctx, call, s);
      VisitSourceKeepsInv(ctx, key, props, i, next);
    }
  }

  /** Every key in the table is for an earlier document, or for an earlier
      site of this one. */
  predicate KeysBefore(t: Table, document: nat, site: nat) {
    forall i :: 0 <= i < |t| ==>
      t[i].key.document < document || (t[i].key.document == document && t[i].key.site < site)
  }

  /** The table keys of the current site are new, so a visit only adds at the
      end: what was recorded before stays as it was. */
  lemma VisitAppends(ctx: Context, call: Node, s: State)
    requires KeysBefore(s.images, ctx.document, s.site)
    ensures var r := Visit(ctx, call, s).1;
            && !Has(s.images, PropertyKey(ctx.document, s.site))
            && s.images <= r.images
            && KeysBefore(r.images, ctx.document, r.site)
            && forall i :: |s.images| <= i < |r.images| ==> r.images[i].key == PropertyKey(ctx.document, s.site)
  {
    var key := PropertyKey(ctx.document, s.site);
    var r := Visit(ctx, call, s).1;
    FrameAppends(s.images, r.images, key);
  }

  /** A change confined to a key no entry has only appends. */
  lemma FrameAppends(t: Table, r: Table, key: PropertyKey)
    requires KeysBefore(t, key.document, key.site) && Frame(t, r, key)
    ensures !Has(t, key)
    ensures t <= r
    ensures KeysBefore(r, key.document, key.site + 1)
  {
    assert r[..|t|] == t;
  }

  /** The replacement of a newly met `src` property is that property with its
      value swapped for the import's name, and the name is made from the
      UUID just drawn. */
  lemma VisitReplacement(ctx: Context, call: Node, s: State)
    requires !Has(s.images, PropertyKey(ctx.document, s.site))
    ensures var r := Visit(ctx, call, s);
            var key := PropertyKey(ctx.document, s.site);
            r.0.Replace? ==>
              && Has(r.1.images, key)
              && var props := PropsOf(call);
              && var d := Get(r.1.images, key);
              && FirstSrc(props).Some?
              && d.replacement == props[FirstSrc(props).value].(value := Identifier(d.importedAs))
              && d.importedAs == ImportName(ctx.host.uuid(s.uuidsDrawn))
  {
    var props := PropsOf(call);
    if FirstSrc(props).Some? {
      var key := PropertyKey(ctx.document, s.site);
      var i := FirstSrc(props).value;
      VisitDispatch(ctx, call, s);
    }
  }

  /** A replaced call keeps its first argument, has the first `src` property
      of its props swapped for the replacement recorded for this site, and
      loses every argument after the second. */
  lemma VisitRewritesArguments(ctx: Context, call: Node, s: State)
    requires call.CallExpression? && |call.arguments| >= 2 && call.arguments[1].ObjectExpression?
    ensures var r := Visit(ctx, call, s);
            var key := PropertyKey(ctx.document, s.site);
            var args := call.arguments;
            var props := args[1].properties;
            r.0.Replace? ==>
              && FirstSrc(props).Some?
              && Has(r.1.images, key)
              && Apply(r.0, args) ==
                   [args[0], ObjectExpression(props[FirstSrc(props).value := Get(r.1.images, key).replacement])]
  {
    var props := PropsOf(call);
    if FirstSrc(props).Some? {
      var i := FirstSrc(props).value;
      var key := PropertyKey(ctx.document, s.site);
      VisitDispatch(ctx, call, s);
      var r := VisitSource(ctx, key, props, i, s.(site := s.site + 1));
      if r.0.Replace? {
        var p := Get(r.1.images, key).replacement;
        assert r.0 == Replace(Mask(|props|, i, p), false);
        OverlayMask(props, i, p);
        assert Apply(r.0, call.arguments) ==
                 [call.arguments[0], ObjectExpression(Overlay(r.0.props, props))] + [];
      }
    }
  }

  /** Overlaying the one-property mask swaps exactly that property. */
  lemma OverlayMask(ps: seq<Node>, i: nat, p: Node)
    requires i < |ps|
    ensures Overlay(Mask(|ps|, i, p), ps) == ps[i := p]
  {
  }

  /** The visitor as the traversal calls it. Its promise may reject, but the
      rejection is swallowed by `Promise.allSettled`, so as seen from the
      traversal it never fails. */
  function Visitor(ctx: Context): (Node, State) -> Result<(Rewrite, State), ()> {
    (m: Node, s: State) => Success(Visit(ctx, m, s))
  }

  /** Visiting the collected call sites of one document in turn: one site
      each, the table only grows at the end and only by keys of this
      document, at most one entry per site, and the invariant holds
      throughout. */
  lemma {:induction false} FoldVisits(ctx: Context, ms: seq<Node>, s: State)
    requires UuidsDistinct(ctx.host)
    requires TableInv(ctx.host, ctx.cache, s.images, s.uuidsDrawn)
    requires KeysBefore(s.images, ctx.document, s.site)
    ensures var r := Fold(ms, s, Visitor(ctx));
            && r.Success?
            && r.value.site == s.site + |ms|
            && TableInv(ctx.host, ctx.cache, r.value.images, r.value.uuidsDrawn)
            && KeysBefore(r.value.images, ctx.document, r.value.site)
            && Grows(s.images, r.value.images, ctx.document, |ms|)
  {
    if ms != [] {
      var step := Visit(ctx, ms[0], s);
      assert Visitor(ctx)(ms[0], s) == Success(step);
      assert Fold(ms, s, Visitor(ctx)) == Fold(ms[1..], step.1, Visitor(ctx));
      VisitKeepsInv(ctx, ms[0], s);
      VisitAppends(ctx, ms[0], s);
      assert Grows(s.images, step.1.images, ctx.document, 1);
      FoldVisits(ctx, ms[1..], step.1);
      var r := Fold(ms[1..], step.1, Visitor(ctx)).value;
      GrowsTrans(s.images, step.1.images, r.images, ctx.document, 1, |ms| - 1);
    }
  }

  /** `r` is `t` followed by at most `n` entries, all for `document`. */
  predicate Grows(t: Table, r: Table, document: nat, n: nat) {
    && t <= r
    && |r| <= |t| + n
    && forall i :: |t| <= i < |r| ==> r[i].key.document == document
  }

  lemma GrowsTrans(a: Table, b: Table, c: Table, document: nat, m: nat, n: nat)
    requires Grows(a, b, document, m) && Grows(b, c, document, n)
    ensures Grows(a, c, document, m + n)
  {
  }

  /** One plugin instance: its cache directory and the table it keeps for
      every document it transforms. */
  datatype Instance = Instance(cache: string, images: Table, uuidsDrawn: nat, documents: nat)

  /** What holds of an instance between documents. */
  ghost predicate InstanceInv(host: Host, inst: Instance) {
    && TableInv(host, inst.cache, inst.images, inst.uuidsDrawn)
    && KeysBefore(inst.images, inst.documents, 0)
  }

  /** Attaching the plugin (src/index.ts:63-83): the option check, and an
      empty table. */
  function Attach(host: Host, option: Option<string>): (r: Result<Instance, ConfigError>)
    ensures r.Failure? <==> option.None? || option.value == ""
    ensures r.Success? ==> TsCacheDirectory(host, option) == Success(r.value.cache)
    ensures r.Success? ==> r.value.images == [] && r.value.documents == 0 && InstanceInv(host, r.value)
  {
    var cache :- TsCacheDirectory(host, option);
    Success(Instance(cache, [], 0, 0))
  }

  datatype TransformError = EmptyHistory

  /** `[...images.values()].map((image) => image.importDeclaration)`. */
  function Declarations(t: Table): (ds: seq<Option<Node>>)
    ensures |ds| == |t|
    ensures forall i :: 0 <= i < |t| ==> ds[i] == t[i].data.importDeclaration
  {
    seq(|t|, i requires 0 <= i < |t| => t[i].data.importDeclaration)
  }

  /** The walk over one document's tree with the instance's table. */
  function WalkDocument(ctx: Context, inst: Instance, tree: Program): (r: (Node, State))
    ensures r.0.OtherNode? && r.0.nodeType == "Program" && |r.0.children| == |tree.body|
  {
    var root := tree.Root();
    var start := State(inst.images, inst.uuidsDrawn, 0, []);
    VisitorSucceeds(ctx);
    WalkSucceeds(root, start, FactoryNames(root), Visitor(ctx));
    Walk(root, start, FactoryNames(root), Visitor(ctx)).value
  }

  lemma VisitorSucceeds(ctx: Context)
    ensures forall m, t :: Visitor(ctx)(m, t).Success?
  {
  }

  /** The transformer (src/index.ts:85-208): a document without a path in its
      history is refused; otherwise every image call site is visited, and
      every import declaration the table holds is put in front of the
      program. The new program, the instance afterwards and the files
      written. */
  function Transform(host: Host, inst: Instance, history: seq<string>, tree: Program)
    : (r: Result<(Program, Instance, seq<Write>), TransformError>)
    ensures r.Failure? <==> |history| == 0 || history[0] == ""
    ensures r.Success? ==> r.value.1.documents == inst.documents + 1 && r.value.1.cache == inst.cache
  {
    if |history| == 0 || history[0] == "" then Failure(EmptyHistory)
    else
      var ctx := Context(host, inst.cache, host.dirname(history[0]), inst.documents);
      var (root, st) := WalkDocument(ctx, inst, tree);
      var body := Prepend(Declarations(st.images), root.children);
      Success((Program(body), Instance(inst.cache, st.images, st.uuidsDrawn, inst.documents + 1), st.writes))
  }

  /** The image calls of a document, in the order they are visited. */
  function DocumentMatches(tree: Program): seq<Node> {
    Matches(tree.Root(), FactoryNames(tree.Root()))
  }

  /** The table after one document's walk: the instance's entries as they
      were, then at most one entry per call site of the document, all for
      this document, and the invariant still holding. */
  lemma WalkDocumentFacts(ctx: Context, inst: Instance, tree: Program)
    requires ctx.cache == inst.cache && ctx.document == inst.documents
    requires UuidsDistinct(ctx.host) && InstanceInv(ctx.host, inst)
    ensures var st := WalkDocument(ctx, inst, tree).1;
            && TableInv(ctx.host, ctx.cache, st.images, st.uuidsDrawn)
            && KeysBefore(st.images, inst.documents + 1, 0)
            && Grows(inst.images, st.images, inst.documents, |DocumentMatches(tree)|)
  {
    var root := tree.Root();
    var start := State(inst.images, inst.uuidsDrawn, 0, []);
    WalkIsFold(root, start, FactoryNames(root), Visitor(ctx));
    FoldVisits(ctx, DocumentMatches(tree), start);
  }

  /** A transformed document keeps the instance invariant; the table keeps
      its entries and gains at most one per call site, each for this
      document. */
  lemma TransformKeepsInv(host: Host, inst: Instance, history: seq<string>, tree: Program)
    requires UuidsDistinct(host) && InstanceInv(host, inst)
    ensures var r := Transform(host, inst, history, tree);
            r.Success? ==>
              var next := r.value.1;
              && InstanceInv(host, next)
              && Grows(inst.images, next.images, inst.documents, |DocumentMatches(tree)|)
  {
    if |history| > 0 && history[0] != "" {
      WalkDocumentFacts(Context(host, inst.cache, host.dirname(history[0]), inst.documents), inst, tree);
    }
  }

  /** The output program: every import declaration in the table, last
      recorded first, then the walked program's statements, as many as
      there were. */
  lemma TransformOutput(host: Host, inst: Instance, history: seq<string>, tree: Program)
    ensures var r := Transform(host, inst, history, tree);
            r.Success? ==>
              var decls := Reverse(Defined(Declarations(r.value.1.images)));
              && |r.value.0.body| == |decls| + |tree.body|
              && r.value.0.body[..|decls|] == decls
  {
    var r := Transform(host, inst, history, tree);
    if r.Success? {
      var ctx := Context(host, inst.cache, host.dirname(history[0]), inst.documents);
      var walked := WalkDocument(ctx, inst, tree);
      PrependReverses(Declarations(walked.1.images), walked.0.children);
    }
  }

  /** After the imports, the new program is the document with every call
      site rewritten as its visit answered, in the state the earlier sites
      left. */
  lemma TransformReplaysSites(host: Host, inst: Instance, history: seq<string>, tree: Program)
    ensures var r := Transform(host, inst, history, tree);
            r.Success? ==>
              var ctx := Context(host, inst.cache, host.dirname(history[0]), inst.documents);
              var start := State(inst.images, inst.uuidsDrawn, 0, []);
              var run := Run(DocumentMatches(tree), start, Visitor(ctx));
              && run.Success?
              && SitesRewritten(ctx, DocumentMatches(tree), start, run.value.0)
              && |tree.body| <= |r.value.0.body|
              && r.value.0.body[|r.value.0.body| - |tree.body|..] == ReplayBody(tree, run.value.0)
  {
    var r := Transform(host, inst, history, tree);
    if r.Success? {
      var ctx := Context(host, inst.cache, host.dirname(history[0]), inst.documents);
      var start := State(inst.images, inst.uuidsDrawn, 0, []);
      var root := tree.Root();
      var ms := DocumentMatches(tree);
      VisitorSucceeds(ctx);
      FoldSucceeds(ms, start, Visitor(ctx));
      RunIsFold(ms, start, Visitor(ctx));
      var run := Run(ms, start, Visitor(ctx));
      WalkIsReplay(root, start, FactoryNames(root), Visitor(ctx));
      RunAnswers(ms, start, Visitor(ctx));
      VisitorAnswers(ctx, ms, start, run.value.0);
      var walked := WalkDocument(ctx, inst, tree);
      assert walked.0 == Replay(root, FactoryNames(root), run.value.0);
    }
  }

  /** The k-th rewrite is what the visit of the k-th call site answers. */
  ghost predicate SitesRewritten(ctx: Context, ms: seq<Node>, s: State, rws: seq<Rewrite>) {
    && |rws| == |ms|
    && forall k :: 0 <= k < |ms| ==>
         && Fold(ms[..k], s, Visitor(ctx)).Success?
         && rws[k] == Visit(ctx, ms[k], Fold(ms[..k], s, Visitor(ctx)).value).0
  }

  lemma VisitorAnswers(ctx: Context, ms: seq<Node>, s: State, rws: seq<Rewrite>)
    requires Answers(ms, s, Visitor(ctx), rws)
    ensures SitesRewritten(ctx, ms, s, rws)
  {
    forall k | 0 <= k < |ms|
      ensures rws[k] == Visit(ctx, ms[k], Fold(ms[..k], s, Visitor(ctx)).value).0
    {
      var t := Fold(ms[..k], s, Visitor(ctx)).value;
      assert Visitor(ctx)(ms[k], t) == Success(Visit(ctx, ms[k], t));
    }
  }

  /** The declarations of a table that keeps the invariant bind one name
      each, and no name twice: each binds the name made from its entry's
      UUID. */
  lemma DeclarationsBindDistinct(host: Host, cache: string, t: Table, drawn: nat)
    requires TableInv(host, cache, t, drawn)
    ensures PresentBindDistinct(Declarations(t))
  {
    var ds := Declarations(t);
    forall i | 0 <= i < |ds| && ds[i].Some?
      ensures BoundName(ds[i].value) == Some(ImportName(t[i].data.uuid))
    {
      assert WellFormed(host, cache, t[i].data);
      DefaultImportBinds(t[i].data.importedAs, CachePath(host, cache, t[i].data));
    }
    forall i, j | 0 <= i < j < |ds| && ds[i].Some? && ds[j].Some?
      ensures BoundName(ds[i].value) != BoundName(ds[j].value)
    {
      ImportNameInjective(t[i].data.uuid, t[j].data.uuid);
    }
  }

  /** With UUIDs that never repeat, the declarations put in front of the
      program bind pairwise distinct names. */
  lemma TransformImportsDistinct(host: Host, inst: Instance, history: seq<string>, tree: Program)
    requires UuidsDistinct(host) && InstanceInv(host, inst)
    ensures var r := Transform(host, inst, history, tree);
            r.Success? ==>
              var n := |Defined(Declarations(r.value.1.images))|;
              n <= |r.value.0.body| && BindsDistinct(r.value.0.body[..n])
  {
    var r := Transform(host, inst, history, tree);
    if r.Success? {
      TransformKeepsInv(host, inst, history, tree);
      var ctx := Context(host, inst.cache, host.dirname(history[0]), inst.documents);
      var walked := WalkDocument(ctx, inst, tree);
      DeclarationsBindDistinct(host, inst.cache, walked.1.images, walked.1.uuidsDrawn);
      PrependBindsDistinct(Declarations(walked.1.images), walked.0.children);
    }
  }

  /** The table outlives the document: a document without a single image
      call still gets, in front of its program, every import recorded for
      the documents transformed before it. */
  lemma TransformLeaks(host: Host, inst: Instance, history: seq<string>, tree: Program)
    requires |history| > 0 && history[0] != ""
    requires DocumentMatches(tree) == []
    ensures var r := Transform(host, inst, history, tree);
            && r.Success?
            && r.value.0.body == Reverse(Defined(Declarations(inst.images))) + tree.body
            && r.value.1.images == inst.images
  {
    var ctx := Context(host, inst.cache, host.dirname(history[0]), inst.documents);
    var root := tree.Root();
    WalkWithoutMatches(root, State(inst.images, inst.uuidsDrawn, 0, []), FactoryNames(root), Visitor(ctx));
    PrependReverses(Declarations(inst.images), tree.body);
  }

  /** The same transformer with a table per document, as the per-document
      rewrite evidently intends. */
  function TransformIsolated(host: Host, inst: Instance, history: seq<string>, tree: Program)
    : (r: Result<(Program, Instance, seq<Write>), TransformError>)
    ensures r.Failure? <==> |history| == 0 || history[0] == ""
  {
    Transform(host, inst.(images := []), history, tree)
  }

  /** With a table per document, only this document's call sites contribute
      imports, at most one each. */
  lemma IsolatedImportsOwnSites(host: Host, inst: Instance, history: seq<string>, tree: Program)
    requires UuidsDistinct(host) && InstanceInv(host, inst)
    ensures var r := TransformIsolated(host, inst, history, tree);
            r.Success? ==>
              && |Defined(Declarations(r.value.1.images))| <= |DocumentMatches(tree)|
              && (forall i :: 0 <= i < |r.value.1.images| ==> r.value.1.images[i].key.document == inst.documents)
              && InstanceInv(host, r.value.1)
  {
    var empty := inst.(images := []);
    TransformKeepsInv(host, empty, history, tree);
    var r := Transform(host, empty, history, tree);
    if r.Success? {
      var t := r.value.1.images;
      assert Grows([], t, inst.documents, |DocumentMatches(tree)|);
      assert |Defined(Declarations(t))| <= |t|;
    }
  }

  /** With a table per document, a document without image calls comes out
      unchanged. */
  lemma IsolatedWithoutMatches(host: Host, inst: Instance, history: seq<string>, tree: Program)
    requires DocumentMatches(tree) == []
    ensures var r := TransformIsolated(host, inst, history, tree);
            r.Success? ==> r.value.0.body == tree.body
  {
    if |history| > 0 && history[0] != "" {
      TransformLeaks(host, inst.(images := []), history, tree);
    }
  }

}
