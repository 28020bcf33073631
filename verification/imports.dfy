/** The import declarations the plugin generates and how they are put in
    front of the program (`prependImportsToTree`, src/index.ts:217-230 and
    index.js:78-85). */
module Imports {
  import opened Wrappers
  import opened Estree

  /** `import <name> from "<path>"`. */
  function DefaultImport(name: string, path: string): Node {
    ImportDeclaration([ImportDefaultSpecifier(name)], path)
  }

  /** The single name an import declaration binds, if it binds exactly one. */
  function BoundName(d: Node): Option<string> {
    if d.ImportDeclaration? && |d.specifiers| == 1 && d.specifiers[0].ImportDefaultSpecifier?
    then Some(d.specifiers[0].local)
    else None
  }

  lemma DefaultImportBinds(name: string, path: string)
    ensures BoundName(DefaultImport(name, path)) == Some(name)
    ensures DefaultImport(name, path).source == path
  {
  }

  function Reverse<T>(xs: seq<T>): (r: seq<T>)
    ensures |r| == |xs|
    ensures forall i :: 0 <= i < |xs| ==> r[i] == xs[|xs| - 1 - i]
  {
    if xs == [] then [] else Reverse(xs[1..]) + [xs[0]]
  }

  /** The declarations that are there, in order (`if (declaration)`). */
  function Defined(ds: seq<Option<Node>>): (r: seq<Node>)
    ensures forall x :: x in r <==> Some(x) in ds
    ensures |r| <= |ds|
  {
    if ds == [] then []
    else Present(ds[0]) + Defined(ds[1..])
  }

  /** The declaration an optional one contributes: itself, or nothing. */
  function Present(d: Option<Node>): seq<Node> {
    if d.Some? then [d.value] else []
  }

  /** `for (const d of imports) if (d) body.unshift(d)`: each present
      declaration in turn moved to the front of the body. */
  function Prepend(ds: seq<Option<Node>>, body: seq<Node>): (r: seq<Node>)
    ensures |r| == |Defined(ds)| + |body|
    ensures r[|Defined(ds)|..] == body
  {
    if ds == [] then body
    else
      var rest := Prepend(ds[1..], Present(ds[0]) + body);
      assert rest[|Defined(ds)|..] == (Present(ds[0]) + body)[|Present(ds[0])|..];
      rest
  }

  lemma ReverseDefinedStep(ds: seq<Option<Node>>)
    requires ds != []
    ensures Reverse(Defined(ds)) == Reverse(Defined(ds[1..])) + Present(ds[0])
  {
    ReverseAppend(Present(ds[0]), Defined(ds[1..]));
    assert Reverse(Present(ds[0])) == Present(ds[0]);
  }

  /** Unshifting one at a time leaves the present declarations in front of the
      body in reverse order. */
  lemma {:induction false} PrependReverses(ds: seq<Option<Node>>, body: seq<Node>)
    ensures Prepend(ds, body) == Reverse(Defined(ds)) + body
  {
    if ds != [] {
      var front := Present(ds[0]);
      calc {
        Prepend(ds, body);
        Prepend(ds[1..], front + body);
        { PrependReverses(ds[1..], front + body); }
        Reverse(Defined(ds[1..])) + (front + body);
        { assert Reverse(Defined(ds[1..])) + (front + body) == Reverse(Defined(ds[1..])) + front + body; }
        Reverse(Defined(ds[1..])) + front + body;
        { ReverseDefinedStep(ds); }
        Reverse(Defined(ds)) + body;
      }
    }
  }

  lemma ReverseAppend<T>(a: seq<T>, b: seq<T>)
    ensures Reverse(a + b) == Reverse(b) + Reverse(a)
  {
  }

  /** Only the present declarations are added, each once, and the body
      follows them unchanged. */
  lemma PrependShape(ds: seq<Option<Node>>, body: seq<Node>)
    ensures |Prepend(ds, body)| == |Defined(ds)| + |body|
    ensures Prepend(ds, body)[|Defined(ds)|..] == body
    ensures forall x :: x in Prepend(ds, body)[..|Defined(ds)|] <==> Some(x) in ds
  {
    PrependReverses(ds, body);
    var r := Reverse(Defined(ds));
    assert Prepend(ds, body)[..|Defined(ds)|] == r;
    forall x | x in r
      ensures x in Defined(ds)
    {
      var i :| 0 <= i < |r| && r[i] == x;
      assert Defined(ds)[|Defined(ds)| - 1 - i] == x;
    }
    forall x | x in Defined(ds)
      ensures x in r
    {
      var i :| 0 <= i < |Defined(ds)| && Defined(ds)[i] == x;
      assert r[|Defined(ds)| - 1 - i] == x;
    }
  }

  /** Every declaration binds one name, and no two bind the same. */
  predicate BindsDistinct(ds: seq<Node>) {
    && (forall i :: 0 <= i < |ds| ==> BoundName(ds[i]).Some?)
    && (forall i, j :: 0 <= i < j < |ds| ==> BoundName(ds[i]) != BoundName(ds[j]))
  }

  /** The same, for the declarations that are present. */
  predicate PresentBindDistinct(ds: seq<Option<Node>>) {
    && (forall i :: 0 <= i < |ds| && ds[i].Some? ==> BoundName(ds[i].value).Some?)
    && (forall i, j :: 0 <= i < j < |ds| && ds[i].Some? && ds[j].Some? ==>
          BoundName(ds[i].value) != BoundName(ds[j].value))
  }

  lemma {:induction false} DefinedBindsDistinct(ds: seq<Option<Node>>)
    requires PresentBindDistinct(ds)
    ensures BindsDistinct(Defined(ds))
  {
    if ds != [] {
      DefinedBindsDistinct(ds[1..]);
      var rest := Defined(ds[1..]);
      if ds[0].Some? {
        forall j | 0 <= j < |rest|
          ensures BoundName(ds[0].value) != BoundName(rest[j])
        {
          assert Some(rest[j]) in ds[1..];
          var k :| 0 <= k < |ds[1..]| && ds[1..][k] == Some(rest[j]);
          assert ds[k + 1] == Some(rest[j]);
        }
      }
    }
  }

  lemma ReverseBindsDistinct(ds: seq<Node>)
    requires BindsDistinct(ds)
    ensures BindsDistinct(Reverse(ds))
  {
    var r := Reverse(ds);
    forall i, j | 0 <= i < j < |r|
      ensures BoundName(r[i]) != BoundName(r[j])
    {
      assert r[i] == ds[|ds| - 1 - i] && r[j] == ds[|ds| - 1 - j];
    }
  }

  /** Declarations binding distinct names, put in front of a body, bind
      distinct names there too. */
  lemma PrependBindsDistinct(ds: seq<Option<Node>>, body: seq<Node>)
    requires PresentBindDistinct(ds)
    ensures |Defined(ds)| <= |Prepend(ds, body)|
    ensures BindsDistinct(Prepend(ds, body)[..|Defined(ds)|])
  {
    PrependReverses(ds, body);
    DefinedBindsDistinct(ds);
    ReverseBindsDistinct(Defined(ds));
    assert Prepend(ds, body)[..|Defined(ds)|] == Reverse(Defined(ds));
  }
}
