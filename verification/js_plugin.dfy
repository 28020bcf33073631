/** The older variant of the plugin (index.js:7-76).

    Every transform starts a fresh counter and a fresh list of imports. Each
    `src` property of each image call is counted, its image read or fetched,
    written to the cache under its base64 SHA-256 digest, and replaced by a
    property whose value is the identifier `static_image_<count>`; the
    import binding that identifier to the cached file is recorded. Any image
    that cannot be loaded rejects its visitor, and `Promise.all` rejects the
    whole transform. The visitors are modelled one after the other in
    pre-order, so each count is read right after it is taken. */
module JsPlugin {
  import opened Wrappers
  import opened Estree
  import opened Text
  import opened Encoding
  import opened Paths
  import opened Environment
  import opened Matcher
  import opened Traverse
  import opened Imports

  /** `static_image_<k>`. */
  function ImageName(k: nat): string {
    "static_image_" + NatToString(k)
  }

  /** Distinct counts give distinct names. */
  lemma ImageNameInjective(a: nat, b: nat)
    ensures ImageName(a) == ImageName(b) <==> a == b
  {
    PrefixCancel("static_image_", NatToString(a), NatToString(b));
    if a != b {
      NatToStringInjective(a, b);
    }
  }

  /** `buildSrcPropertyNode(k)`: `src: static_image_<k>`. */
  function SrcPropertyNode(k: nat): (p: Node)
    ensures p.Property? && p.key == Identifier("src") && p.value == Identifier(ImageName(k))
    ensures p.kind == Init && !p.isMethod && !p.shorthand && !p.computed
    ensures !IsSrcProperty(p)
  {
    Property(Identifier("src"), Identifier(ImageName(k)), Init, false, false, false)
  }

  /** What a transform sees of its surroundings: the host, the cache
      directory, and the directory part of the document's path. */
  datatype JsContext = JsContext(host: Host, cache: string, sourceDirectory: string)

  /** `imageCounter`, `imports`, and the files handed to `writeFile`. */
  datatype JsState = JsState(counter: nat, imports: seq<Node>, writes: seq<Write>)

  datatype JsError = EmptyHistory | LoadFailed(reason: LoadError)

  /** Where the older variant caches an image: the base64 SHA-256 digest of
      its bytes and the extension `getExtension` finds in its `src`. */
  function JsCachePath(ctx: JsContext, value: string, buffer: Buffer): string {
    CacheFilePath(ctx.cache, Base64(ctx.host.sha256(buffer)), GetExtension(value))
  }

  /** The cache file sits under the cache directory, is named by the base64
      digest of the image, which decodes back to the digest, and ends with
      the extension `getExtension` finds. */
  lemma JsCachePathNamesDigest(ctx: JsContext, value: string, buffer: Buffer)
    ensures var path := JsCachePath(ctx, value, buffer);
            InCache(path, ctx.cache, |Base64(ctx.host.sha256(buffer))|, GetExtension(value))
    ensures var path := JsCachePath(ctx, value, buffer);
            var name := path[|ctx.cache| + 1..|path| - |GetExtension(value)|];
            && |name| % 4 == 0
            && Base64Decode(name) == ctx.host.sha256(buffer)
  {
    var digest := Base64(ctx.host.sha256(buffer));
    Base64RoundTrip(ctx.host.sha256(buffer));
    Base64LengthMultiple(ctx.host.sha256(buffer));
    var path := JsCachePath(ctx, value, buffer);
    assert path == (ctx.cache + "/") + digest + GetExtension(value);
    assert path[|ctx.cache| + 1..|path| - |GetExtension(value)|] == digest;
  }

  /** One `src` property (index.js:35-66): count it, load its image, record
      the import and the write, and build the replacement property. */
  function ProcessSource(ctx: JsContext, value: string, s: JsState): (r: Result<(Node, JsState), JsError>)
    ensures r.Failure? <==> Load(ctx.host, ctx.sourceDirectory, value).Failure?
    ensures r.Success? ==>
              var buffer := Load(ctx.host, ctx.sourceDirectory, value).value;
              var path := JsCachePath(ctx, value, buffer);
              && r.value.0 == SrcPropertyNode(s.counter + 1)
              && r.value.1.counter == s.counter + 1
              && r.value.1.imports == s.imports + [DefaultImport(ImageName(s.counter + 1), path)]
              && r.value.1.writes == s.writes + [Write(path, buffer)]
  {
    var k := s.counter + 1;
    match Load(ctx.host, ctx.sourceDirectory, value)
    case Failure(e) => Failure(LoadFailed(e))
    case Success(buffer) =>
      var path := JsCachePath(ctx, value, buffer);
      Success((SrcPropertyNode(k),
               JsState(k, s.imports + [DefaultImport(ImageName(k), path)], s.writes + [Write(path, buffer)])))
  }

  /** How many `src` properties a list of properties has. */
  function SrcCount(props: seq<Node>): nat {
    if props == [] then 0 else (if IsSrcProperty(props[0]) then 1 else 0) + SrcCount(props[1..])
  }

  /** Some `src` property of the list names an image that cannot be loaded. */
  predicate LoadsFail(ctx: JsContext, props: seq<Node>) {
    exists j :: 0 <= j < |props| && IsSrcProperty(props[j]) &&
                Load(ctx.host, ctx.sourceDirectory, SrcValue(props[j])).Failure?
  }

  /** What holds between sites: one import per count, the k-th binding
      `static_image_<k>` to the k-th file written, which is named after the
      digest of its content. */
  predicate JsInv(ctx: JsContext, s: JsState) {
    && s.counter == |s.imports| == |s.writes|
    && (forall k :: 0 <= k < |s.imports| ==> s.imports[k] == DefaultImport(ImageName(k + 1), s.writes[k].path))
    && (forall k :: 0 <= k < |s.writes| ==>
          StartsWith(s.writes[k].path, ctx.cache + "/" + Base64(ctx.host.sha256(s.writes[k].content))))
  }

  lemma ProcessSourceKeepsInv(ctx: JsContext, value: string, s: JsState)
    ensures var r := ProcessSource(ctx, value, s);
            r.Success? && JsInv(ctx, s) ==> JsInv(ctx, r.value.1)
  {
    var r := ProcessSource(ctx, value, s);
    if r.Success? && JsInv(ctx, s) {
      var buffer := Load(ctx.host, ctx.sourceDirectory, value).value;
      var digest := Base64(ctx.host.sha256(buffer));
      var path := JsCachePath(ctx, value, buffer);
      assert path == (ctx.cache + "/" + digest) + GetExtension(value);
      var t := r.value.1;
      forall k | 0 <= k < |t.writes|
        ensures t.writes[k] == if k < |s.writes| then s.writes[k] else Write(path, buffer)
        ensures t.imports[k] == if k < |s.imports| then s.imports[k] else DefaultImport(ImageName(k + 1), path)
      {
      }
    }
  }

  /** The loop over a call's properties (index.js:26-67): a property that is
      not a `src` is kept, each `src` is replaced in turn. The first image
      that cannot be loaded ends the loop with its error. */
  function VisitProps(ctx: JsContext, props: seq<Node>, s: JsState): (r: Result<(seq<Option<Node>>, JsState), JsError>)
    ensures r.Success? ==> |r.value.0| == |props|
    ensures r.Success? ==> r.value.1.counter == s.counter + SrcCount(props)
  {
    if props == [] then Success(([], s))
    else
      var p := props[0];
      if !IsSrcProperty(p) then
        var rest :- VisitProps(ctx, props[1..], s);
        Success(([None] + rest.0, rest.1))
      else
        var step :- ProcessSource(ctx, SrcValue(p), s);
        var rest :- VisitProps(ctx, props[1..], step.1);
        Success(([Some(step.0)] + rest.0, rest.1))
  }

  /** The loop fails exactly when one of the `src` properties names an image
      that cannot be loaded. */
  lemma {:induction false} VisitPropsFails(ctx: JsContext, props: seq<Node>, s: JsState)
    ensures VisitProps(ctx, props, s).Failure? <==> LoadsFail(ctx, props)
  {
    if props != [] {
      var p := props[0];
      var next := if IsSrcProperty(p) then ProcessSource(ctx, SrcValue(p), s) else Success((p, s));
      if next.Success? {
        VisitPropsFails(ctx, props[1..], next.value.1);
      }
      LoadsFailCons(ctx, props);
    }
  }

  /** Some property fails to load: the first, or one of the rest. */
  lemma LoadsFailCons(ctx: JsContext, props: seq<Node>)
    requires props != []
    ensures LoadsFail(ctx, props) <==>
              (IsSrcProperty(props[0]) && Load(ctx.host, ctx.sourceDirectory, SrcValue(props[0])).Failure?)
              || LoadsFail(ctx, props[1..])
  {
    if LoadsFail(ctx, props[1..]) {
      var j :| 0 <= j < |props[1..]| && IsSrcProperty(props[1..][j]) &&
               Load(ctx.host, ctx.sourceDirectory, SrcValue(props[1..][j])).Failure?;
      assert props[j + 1] == props[1..][j];
    }
    if LoadsFail(ctx, props) {
      var j :| 0 <= j < |props| && IsSrcProperty(props[j]) &&
               Load(ctx.host, ctx.sourceDirectory, SrcValue(props[j])).Failure?;
      if j > 0 {
        assert props[1..][j - 1] == props[j];
      }
    }
  }

  /** Exactly the `src` properties are replaced, each by the property that
      uses the name of its own count: the `src` properties among the first
      `j + 1` number the one at `j`, counting on from `c`. */
  predicate Numbered(props: seq<Node>, mask: seq<Option<Node>>, c: nat) {
    && |mask| == |props|
    && (forall j :: 0 <= j < |props| ==> (mask[j].Some? <==> IsSrcProperty(props[j])))
    && (forall j :: 0 <= j < |props| && IsSrcProperty(props[j]) ==>
          mask[j] == Some(SrcPropertyNode(c + SrcCount(props[..j + 1]))))
  }

  /** The loop numbers the `src` properties in order: the first gets the
      next count, and so on. */
  lemma {:induction false} VisitPropsNumbering(ctx: JsContext, props: seq<Node>, s: JsState)
    requires VisitProps(ctx, props, s).Success?
    ensures Numbered(props, VisitProps(ctx, props, s).value.0, s.counter)
  {
    var r := VisitProps(ctx, props, s);
    if props != [] {
      var next := VisitPropsStep(ctx, props, s);
      VisitPropsNumbering(ctx, props[1..], next);
      var rest := VisitProps(ctx, props[1..], next).value;
      assert next.counter == s.counter + if IsSrcProperty(props[0]) then 1 else 0;
      NumberingShift(props, r.value.0, rest.0, s.counter);
    }
  }

  /** The numbering of a list from the numbering of its tail: the head takes
      the next count when it is a `src`, and the tail's counts follow it. */
  lemma NumberingShift(props: seq<Node>, mask: seq<Option<Node>>, rest: seq<Option<Node>>, c: nat)
    requires props != [] && |mask| == |props| && mask[1..] == rest
    requires mask[0] == if IsSrcProperty(props[0]) then Some(SrcPropertyNode(c + 1)) else None
    requires Numbered(props[1..], rest, c + if IsSrcProperty(props[0]) then 1 else 0)
    ensures Numbered(props, mask, c)
  {
    SrcCountPrefix(props);
    forall j | 1 <= j < |props|
      ensures mask[j] == rest[j - 1] && props[j] == props[1..][j - 1]
    {
    }
  }

  /** The loop after its first property: the rest of the properties are
      visited from the state the first one leaves, and the first gets its
      replacement when it is a `src`. The state the first one leaves. */
  lemma VisitPropsStep(ctx: JsContext, props: seq<Node>, s: JsState) returns (next: JsState)
    requires props != [] && VisitProps(ctx, props, s).Success?
    ensures next == if IsSrcProperty(props[0]) then ProcessSource(ctx, SrcValue(props[0]), s).value.1 else s
    ensures VisitProps(ctx, props[1..], next).Success?
    ensures var r := VisitProps(ctx, props, s).value;
            var rest := VisitProps(ctx, props[1..], next).value;
            && r.0[1..] == rest.0
            && r.0[0] == (if IsSrcProperty(props[0]) then Some(SrcPropertyNode(s.counter + 1)) else None)
            && r.1 == rest.1
  {
    next := if IsSrcProperty(props[0]) then ProcessSource(ctx, SrcValue(props[0]), s).value.1 else s;
  }

  /** The `src` property `p`, counted `k`-th, has its image loaded, written
      to the cache under its digest, and imported as `static_image_<k>` from
      the written file. */
  predicate SourceImported(ctx: JsContext, p: Node, t: JsState, k: nat) {
    && IsSrcProperty(p)
    && 0 < k <= |t.writes| && k <= |t.imports|
    && Load(ctx.host, ctx.sourceDirectory, SrcValue(p)).Success?
    && var buffer := Load(ctx.host, ctx.sourceDirectory, SrcValue(p)).value;
       var path := JsCachePath(ctx, SrcValue(p), buffer);
       && t.writes[k - 1] == Write(path, buffer)
       && t.imports[k - 1] == DefaultImport(ImageName(k), path)
  }

  /** Every `src` property of the list is imported under its count, counting
      on from `c`. */
  predicate SourcesImported(ctx: JsContext, props: seq<Node>, t: JsState, c: nat) {
    forall j :: 0 <= j < |props| && IsSrcProperty(props[j]) ==>
      SourceImported(ctx, props[j], t, c + SrcCount(props[..j + 1]))
  }

  /** `t` keeps every import and write of `s`, in place. */
  predicate Extends(s: JsState, t: JsState) {
    s.writes <= t.writes && s.imports <= t.imports
  }

  lemma ExtendsTrans(a: JsState, b: JsState, c: JsState)
    requires Extends(a, b) && Extends(b, c)
    ensures Extends(a, c)
  {
  }

  /** After the loop, the `k`-th import and the `k`-th write belong to the
      `src` property counted `k`-th; what was recorded before is kept. */
  lemma {:induction false} VisitPropsImports(ctx: JsContext, props: seq<Node>, s: JsState)
    requires VisitProps(ctx, props, s).Success?
    requires |s.writes| == |s.imports| == s.counter
    ensures var t := VisitProps(ctx, props, s).value.1;
            Extends(s, t) && SourcesImported(ctx, props, t, s.counter)
  {
    if props != [] {
      var next := VisitPropsStep(ctx, props, s);
      VisitPropsImports(ctx, props[1..], next);
      var t := VisitProps(ctx, props[1..], next).value.1;
      if IsSrcProperty(props[0]) {
        HeadImported(ctx, props[0], s, t);
      }
      ExtendsTrans(s, next, t);
      ImportsShift(ctx, props, t, s.counter);
    }
  }

  /** A `src` processed from `s` is imported under the next count in any
      state that extends the one it leaves. */
  lemma HeadImported(ctx: JsContext, p: Node, s: JsState, t: JsState)
    requires IsSrcProperty(p) && |s.writes| == |s.imports| == s.counter
    requires ProcessSource(ctx, SrcValue(p), s).Success?
    requires Extends(ProcessSource(ctx, SrcValue(p), s).value.1, t)
    ensures SourceImported(ctx, p, t, s.counter + 1)
  {
    var next := ProcessSource(ctx, SrcValue(p), s).value.1;
    assert next.writes[s.counter] == t.writes[s.counter];
    assert next.imports[s.counter] == t.imports[s.counter];
  }

  /** The imports of a list from those of its tail: the head is counted next
      when it is a `src`, and the tail's counts follow it. */
  lemma ImportsShift(ctx: JsContext, props: seq<Node>, t: JsState, c: nat)
    requires props != []
    requires IsSrcProperty(props[0]) ==> SourceImported(ctx, props[0], t, c + 1)
    requires SourcesImported(ctx, props[1..], t, c + if IsSrcProperty(props[0]) then 1 else 0)
    ensures SourcesImported(ctx, props, t, c)
  {
    SrcCountPrefix(props);
    var head := if IsSrcProperty(props[0]) then 1 else 0;
    forall j | 0 <= j < |props| && IsSrcProperty(props[j])
      ensures SourceImported(ctx, props[j], t, c + SrcCount(props[..j + 1]))
    {
      if j > 0 {
        assert props[j] == props[1..][j - 1];
        assert SrcCount(props[..j + 1]) == head + SrcCount(props[1..][..j]);
        assert SourceImported(ctx, props[1..][j - 1], t, c + head + SrcCount(props[1..][..j - 1 + 1]));
      }
    }
  }

  /** The invariant holds from one `src` property to the next, and imports
      are only ever added at the end. */
  lemma {:induction false} VisitPropsKeepsInv(ctx: JsContext, props: seq<Node>, s: JsState)
    requires JsInv(ctx, s)
    ensures var r := VisitProps(ctx, props, s);
            r.Success? ==> JsInv(ctx, r.value.1) && s.imports <= r.value.1.imports
  {
    var r := VisitProps(ctx, props, s);
    if props != [] && r.Success? {
      var p := props[0];
      if IsSrcProperty(p) {
        var step := ProcessSource(ctx, SrcValue(p), s).value;
        ProcessSourceKeepsInv(ctx, SrcValue(p), s);
        VisitPropsKeepsInv(ctx, props[1..], step.1);
      } else {
        VisitPropsKeepsInv(ctx, props[1..], s);
      }
    }
  }

  /** Counting the first `j + 1` properties: the first one, then the first
      `j` of the rest. */
  lemma SrcCountPrefix(props: seq<Node>)
    requires props != []
    ensures forall j :: 1 <= j < |props| ==>
              SrcCount(props[..j + 1]) == (if IsSrcProperty(props[0]) then 1 else 0) + SrcCount(props[1..][..j])
    ensures SrcCount(props[..1]) == if IsSrcProperty(props[0]) then 1 else 0
  {
    forall j | 1 <= j < |props|
      ensures SrcCount(props[..j + 1]) == (if IsSrcProperty(props[0]) then 1 else 0) + SrcCount(props[1..][..j])
    {
      assert props[..j + 1][1..] == props[1..][..j];
    }
  }

  /** The call-site visitor (index.js:23-73): the rewritten properties, the
      arguments after the second kept. */
  function JsVisit(ctx: JsContext, call: Node, s: JsState): (r: Result<(Rewrite, JsState), JsError>)
    ensures r.Failure? <==> LoadsFail(ctx, PropsOf(call))
    ensures r.Success? ==> r.value.0.Replace? && r.value.0.keepRest
    ensures r.Success? ==> r.value.1.counter == s.counter + SrcCount(PropsOf(call))
  {
    VisitPropsFails(ctx, PropsOf(call), s);
    var step :- VisitProps(ctx, PropsOf(call), s);
    Success((Replace(step.0, true), step.1))
  }

  /** Each property as the rewrite leaves it: a `src` property becomes the one
      naming its count, counting on from `c`, and any other is kept. */
  predicate Renumbered(props: seq<Node>, out: seq<Node>, c: nat) {
    && |out| == |props|
    && forall j :: 0 <= j < |props| ==>
         out[j] == if IsSrcProperty(props[j]) then SrcPropertyNode(c + SrcCount(props[..j + 1])) else props[j]
  }

  /** The reassigned arguments (index.js:68-72): the first and those after
      the second as they were, the second with its properties renumbered. */
  lemma JsVisitRewritesArguments(ctx: JsContext, call: Node, s: JsState)
    requires call.CallExpression? && |call.arguments| >= 2 && call.arguments[1].ObjectExpression?
    requires JsVisit(ctx, call, s).Success?
    ensures var args := call.arguments;
            var out := Apply(JsVisit(ctx, call, s).value.0, args);
            && |out| == |args| && out[0] == args[0] && out[2..] == args[2..]
            && out[1].ObjectExpression?
            && Renumbered(args[1].properties, out[1].properties, s.counter)
  {
    var props := PropsOf(call);
    VisitPropsNumbering(ctx, props, s);
    var mask := VisitProps(ctx, props, s).value.0;
    var out := Apply(JsVisit(ctx, call, s).value.0, call.arguments);
    assert out[1].properties == Overlay(mask, props);
  }

  /** The name each rewritten `src` property uses is bound by an import of
      the file its image was written to. */
  lemma JsVisitImportsSources(ctx: JsContext, call: Node, s: JsState)
    requires JsInv(ctx, s)
    requires JsVisit(ctx, call, s).Success?
    ensures SourcesImported(ctx, PropsOf(call), JsVisit(ctx, call, s).value.1, s.counter)
  {
    VisitPropsImports(ctx, PropsOf(call), s);
  }

  function JsVisitor(ctx: JsContext): (Node, JsState) -> Result<(Rewrite, JsState), JsError> {
    (m: Node, s: JsState) => JsVisit(ctx, m, s)
  }

  /** How many `src` properties the collected calls have together. */
  function SrcTotal(ms: seq<Node>): nat {
    if ms == [] then 0 else SrcCount(PropsOf(ms[0])) + SrcTotal(ms[1..])
  }

  /** One of the collected calls has a `src` whose image cannot be loaded. */
  predicate AnyLoadsFail(ctx: JsContext, ms: seq<Node>) {
    exists i :: 0 <= i < |ms| && LoadsFail(ctx, PropsOf(ms[i]))
  }

  /** Visiting the collected calls in turn fails exactly when one of their
      images cannot be loaded; otherwise one import per `src` has been
      recorded and the invariant holds. */
  lemma {:induction false} FoldJs(ctx: JsContext, ms: seq<Node>, s: JsState)
    requires JsInv(ctx, s)
    ensures var r := Fold(ms, s, JsVisitor(ctx));
            && (r.Failure? <==> AnyLoadsFail(ctx, ms))
            && (r.Success? ==> JsInv(ctx, r.value) && r.value.counter == s.counter + SrcTotal(ms))
  {
    if ms != [] {
      var step := JsVisit(ctx, ms[0], s);
      assert JsVisitor(ctx)(ms[0], s) == step;
      assert Fold(ms, s, JsVisitor(ctx)) ==
               if step.Failure? then Failure(step.error) else Fold(ms[1..], step.value.1, JsVisitor(ctx));
      VisitPropsKeepsInv(ctx, PropsOf(ms[0]), s);
      AnyLoadsFailCons(ctx, ms);
      if step.Success? {
        FoldJs(ctx, ms[1..], step.value.1);
      }
    }
  }

  /** Some call fails to load: the first, or one of the rest. */
  lemma AnyLoadsFailCons(ctx: JsContext, ms: seq<Node>)
    requires ms != []
    ensures AnyLoadsFail(ctx, ms) <==> LoadsFail(ctx, PropsOf(ms[0])) || AnyLoadsFail(ctx, ms[1..])
  {
    if AnyLoadsFail(ctx, ms[1..]) {
      var i :| 0 <= i < |ms[1..]| && LoadsFail(ctx, PropsOf(ms[1..][i]));
      assert ms[i + 1] == ms[1..][i];
    }
    if AnyLoadsFail(ctx, ms) {
      var i :| 0 <= i < |ms| && LoadsFail(ctx, PropsOf(ms[i]));
      if i > 0 {
        assert ms[1..][i - 1] == ms[i];
      }
    }
  }

  /** The transformer (index.js:16-75). The document's path must be known;
      every image call site is visited with a fresh counter, and every import
      recorded is put in front of the program. The new program and the files
      written. */
  function JsTransform(host: Host, cache: string, history: seq<string>, tree: Program)
    : (r: Result<(Program, seq<Write>), JsError>)
    ensures r.Failure? <==>
              || |history| == 0 || history[0] == ""
              || AnyLoadsFail(JsContext(host, cache, SourceDirectory(history[0])), JsMatches(tree))
    ensures |history| == 0 || history[0] == "" ==> r == Failure(EmptyHistory)
  {
    if |history| == 0 || history[0] == "" then Failure(EmptyHistory)
    else
      var walked :- JsWalk(JsContext(host, cache, SourceDirectory(history[0])), tree);
      var body := Prepend(Wrap(walked.1.imports), walked.0.children);
      Success((Program(body), walked.1.writes))
  }

  /** The walk of one document from a fresh counter. It fails exactly when
      one of the document's images cannot be loaded; otherwise it leaves one
      import per `src` property. */
  function JsWalk(ctx: JsContext, tree: Program): (r: Result<(Node, JsState), JsError>)
    ensures r.Failure? <==> AnyLoadsFail(ctx, JsMatches(tree))
    ensures r.Success? ==> r.value.0.OtherNode? && |r.value.0.children| == |tree.body|
    ensures r.Success? ==> JsInv(ctx, r.value.1) && r.value.1.counter == SrcTotal(JsMatches(tree))
  {
    var root := tree.Root();
    var start := JsState(0, [], []);
    var r := Walk(root, start, FactoryNames(root), JsVisitor(ctx));
    WalkIsFold(root, start, FactoryNames(root), JsVisitor(ctx));
    FoldJs(ctx, JsMatches(tree), start);
    assert r.Success? ==> SameKind(root, r.value.0);
    r
  }

  /** Every declaration present. */
  function Wrap(ds: seq<Node>): (r: seq<Option<Node>>)
    ensures |r| == |ds| && forall i :: 0 <= i < |ds| ==> r[i] == Some(ds[i])
  {
    seq(|ds|, i requires 0 <= i < |ds| => Some(ds[i]))
  }

  lemma DefinedWrap(ds: seq<Node>)
    ensures Defined(Wrap(ds)) == ds
  {
    if ds != [] {
      assert Wrap(ds)[1..] == Wrap(ds[1..]);
      DefinedWrap(ds[1..]);
    }
  }

  /** The image calls of a document, in the order they are visited. */
  function JsMatches(tree: Program): seq<Node> {
    Matches(tree.Root(), FactoryNames(tree.Root()))
  }

  /** Declarations binding `static_image_1` to `static_image_<n>`, reversed,
      bind the names from `n` down to 1, so no two the same. */
  lemma {:induction false} ReversedImportsBind(imports: seq<Node>, writes: seq<Write>)
    requires |writes| == |imports|
    requires forall k :: 0 <= k < |imports| ==> imports[k] == DefaultImport(ImageName(k + 1), writes[k].path)
    ensures var n := |imports|;
            forall k :: 0 <= k < n ==> BoundName(Reverse(imports)[k]) == Some(ImageName(n - k))
    ensures BindsDistinct(Reverse(imports))
  {
    var n := |imports|;
    var r := Reverse(imports);
    forall k | 0 <= k < n
      ensures BoundName(r[k]) == Some(ImageName(n - k))
    {
      assert r[k] == imports[n - 1 - k];
      DefaultImportBinds(ImageName(n - k), writes[n - 1 - k].path);
    }
    forall i, j | 0 <= i < j < n
      ensures BoundName(r[i]) != BoundName(r[j])
    {
      ImageNameInjective(n - i, n - j);
    }
  }

  /** The first `n` statements of `body` are imports, the k-th from the front
      binding `static_image_<n - k>`, and no two bind the same name. */
  predicate ImportsNumbered(body: seq<Node>, n: nat) {
    && n <= |body|
    && (forall k :: 0 <= k < n ==> BoundName(body[k]) == Some(ImageName(n - k)))
    && BindsDistinct(body[..n])
  }

  /** Declarations binding `static_image_1` to `static_image_<n>`, put in
      front of a body: the k-th from the front binds `static_image_<n - k>`. */
  lemma {:induction false} PrependedImports(imports: seq<Node>, writes: seq<Write>, children: seq<Node>)
    requires |writes| == |imports|
    requires forall k :: 0 <= k < |imports| ==> imports[k] == DefaultImport(ImageName(k + 1), writes[k].path)
    ensures var body := Prepend(Wrap(imports), children);
            var n := |imports|;
            && |body| == n + |children|
            && ImportsNumbered(body, n)
  {
    PrependReverses(Wrap(imports), children);
    DefinedWrap(imports);
    ReversedImportsBind(imports, writes);
    var body := Prepend(Wrap(imports), children);
    var front := Reverse(imports);
    assert body == front + children;
    assert body[..|imports|] == front;
    forall k | 0 <= k < |imports|
      ensures BoundName(body[k]) == Some(ImageName(|imports| - k))
    {
      assert body[k] == front[k];
    }
  }

  /** A successful transform puts one import per `src` property in front of
      the program, the k-th binding `static_image_<k>`, last counted first,
      so no two bind the same name; the program's own statements follow. */
  lemma JsTransformImports(host: Host, cache: string, history: seq<string>, tree: Program)
    ensures var r := JsTransform(host, cache, history, tree);
            r.Success? ==>
              var n := SrcTotal(JsMatches(tree));
              && |r.value.0.body| == n + |tree.body|
              && ImportsNumbered(r.value.0.body, n)
              && |r.value.1| == n
  {
    var r := JsTransform(host, cache, history, tree);
    if r.Success? {
      var ctx := JsContext(host, cache, SourceDirectory(history[0]));
      JsTransformSplit(host, cache, history, tree);
      var walked := JsWalk(ctx, tree).value;
      PrependedImports(walked.1.imports, walked.1.writes, walked.0.children);
    }
  }

  /** After the imports, the new program is the document with every call
      site rewritten as its visit answered, in the state the earlier sites
      left. */
  lemma JsTransformReplaysSites(host: Host, cache: string, history: seq<string>, tree: Program)
    ensures var r := JsTransform(host, cache, history, tree);
            r.Success? ==>
              var ctx := JsContext(host, cache, SourceDirectory(history[0]));
              var start := JsState(0, [], []);
              var run := Run(JsMatches(tree), start, JsVisitor(ctx));
              && run.Success?
              && JsSitesRewritten(ctx, JsMatches(tree), start, run.value.0)
              && |tree.body| <= |r.value.0.body|
              && r.value.0.body[|r.value.0.body| - |tree.body|..] == ReplayBody(tree, run.value.0)
  {
    var r := JsTransform(host, cache, history, tree);
    if r.Success? {
      var ctx := JsContext(host, cache, SourceDirectory(history[0]));
      var start := JsState(0, [], []);
      var root := tree.Root();
      var ms := JsMatches(tree);
      JsTransformSplit(host, cache, history, tree);
      WalkIsFold(root, start, FactoryNames(root), JsVisitor(ctx));
      RunIsFold(ms, start, JsVisitor(ctx));
      var run := Run(ms, start, JsVisitor(ctx));
      WalkIsReplay(root, start, FactoryNames(root), JsVisitor(ctx));
      RunAnswers(ms, start, JsVisitor(ctx));
      JsVisitorAnswers(ctx, ms, start, run.value.0);
    }
  }

  /** The k-th rewrite is what the visit of the k-th call site answers. */
  ghost predicate JsSitesRewritten(ctx: JsContext, ms: seq<Node>, s: JsState, rws: seq<Rewrite>) {
    && |rws| == |ms|
    && forall k :: 0 <= k < |ms| ==>
         && Fold(ms[..k], s, JsVisitor(ctx)).Success?
         && JsVisit(ctx, ms[k], Fold(ms[..k], s, JsVisitor(ctx)).value).Success?
         && rws[k] == JsVisit(ctx, ms[k], Fold(ms[..k], s, JsVisitor(ctx)).value).value.0
  }

  lemma JsVisitorAnswers(ctx: JsContext, ms: seq<Node>, s: JsState, rws: seq<Rewrite>)
    requires Answers(ms, s, JsVisitor(ctx), rws)
    ensures JsSitesRewritten(ctx, ms, s, rws)
  {
    forall k | 0 <= k < |ms|
      ensures JsVisit(ctx, ms[k], Fold(ms[..k], s, JsVisitor(ctx)).value).Success?
      ensures rws[k] == JsVisit(ctx, ms[k], Fold(ms[..k], s, JsVisitor(ctx)).value).value.0
    {
      var t := Fold(ms[..k], s, JsVisitor(ctx)).value;
      assert JsVisitor(ctx)(ms[k], t) == JsVisit(ctx, ms[k], t);
    }
  }

  lemma JsTransformSplit(host: Host, cache: string, history: seq<string>, tree: Program)
    requires JsTransform(host, cache, history, tree).Success?
    ensures var w := JsWalk(JsContext(host, cache, SourceDirectory(history[0])), tree);
            && w.Success?
            && JsTransform(host, cache, history, tree).value ==
                 (Program(Prepend(Wrap(w.value.1.imports), w.value.0.children)), w.value.1.writes)
  {
  }
}
