/** Recognising image element calls, shared by both variants
    (`buildImageJsxFactoryTest`, src/index.ts:232-257 and index.js:86-107),
    and picking out the `src` properties of a call's props object. */
module Matcher {
  import opened Wrappers
  import opened Estree

  /** `/^jsxs?$/.test(name)`. */
  predicate IsJsxName(name: string) {
    name == "jsx" || name == "jsxs"
  }

  /** An import specifier that brings in the automatic runtime's factory. */
  predicate IsFactorySpecifier(n: Node) {
    n.ImportSpecifier? && n.imported.ExportIdentifier? && IsJsxName(n.imported.name)
  }

  /** The names-collecting visit: record the local name of a factory
      specifier and skip its subtree, continue everywhere else. */
  function FactoryNames(n: Node): set<string>
    decreases n, 1
  {
    if IsFactorySpecifier(n) then {n.local} else FactoryNamesOf(Children(n), n)
  }

  function FactoryNamesOf(cs: seq<Node>, ghost parent: Node): set<string>
    requires forall i :: 0 <= i < |cs| ==> cs[i] < parent
    decreases parent, 0, |cs|
  {
    if cs == [] then {} else FactoryNames(cs[0]) + FactoryNamesOf(cs[1..], parent)
  }

  /** The names a document binds to the JSX factory. */
  function ProgramFactoryNames(p: Program): set<string> {
    FactoryNames(p.Root())
  }

  /** A local name binds the factory iff some factory specifier anywhere in
      the tree declares it. */
  lemma {:induction false} FactoryNamesExact(n: Node, name: string)
    ensures name in FactoryNames(n) <==>
              exists x :: x in Nodes(n) && IsFactorySpecifier(x) && x.local == name
    decreases n, 1
  {
    FactoryNamesOfExact(Children(n), n, name);
    if IsFactorySpecifier(n) {
      assert Children(n) == [];
      assert Nodes(n) == [n];
    }
  }

  lemma {:induction false} FactoryNamesOfExact(cs: seq<Node>, parent: Node, name: string)
    requires forall i :: 0 <= i < |cs| ==> cs[i] < parent
    ensures name in FactoryNamesOf(cs, parent) <==>
              exists x :: x in NodesOf(cs, parent) && IsFactorySpecifier(x) && x.local == name
    decreases parent, 0, |cs|
  {
    if cs != [] {
      FactoryNamesExact(cs[0], name);
      FactoryNamesOfExact(cs[1..], parent, name);
      assert NodesOf(cs, parent) == Nodes(cs[0]) + NodesOf(cs[1..], parent);
    }
  }

  /** The call-site test: the callee is a factory name, the first argument
      selects `.img`, and the second is an object expression. */
  predicate IsImageCall(n: Node, names: set<string>): (b: bool)
    ensures b ==> n.CallExpression? && n.callee.Identifier? && n.callee.name in names
    ensures b ==> n.CallExpression? && |n.arguments| >= 2 && n.arguments[1].ObjectExpression?
                  && PropsOf(n) == n.arguments[1].properties
  {
    && n.CallExpression?
    && n.callee.Identifier?
    && n.callee.name in names
    && |n.arguments| >= 1
    && n.arguments[0].MemberExpression?
    && n.arguments[0].property.Identifier?
    && n.arguments[0].property.name == "img"
    && |n.arguments| >= 2
    && n.arguments[1].ObjectExpression?
  }

  function Filter(ns: seq<Node>, names: set<string>): (r: seq<Node>)
    ensures forall x :: x in r <==> x in ns && IsImageCall(x, names)
  {
    if ns == [] then []
    else (if IsImageCall(ns[0], names) then [ns[0]] else []) + Filter(ns[1..], names)
  }

  lemma {:induction false} FilterAppend(a: seq<Node>, b: seq<Node>, names: set<string>)
    ensures Filter(a + b, names) == Filter(a, names) + Filter(b, names)
  {
    if a == [] {
      assert a + b == b;
    } else {
      assert (a + b)[0] == a[0];
      assert (a + b)[1..] == a[1..] + b;
      FilterAppend(a[1..], b, names);
    }
  }

  /** The image calls of a tree in the order a visit meets them: the list
      `visitAsync` collects before any call site is processed. */
  function Matches(n: Node, names: set<string>): seq<Node> {
    Filter(Nodes(n), names)
  }

  /** A property `src: "<string>"`: a `Property` whose key is the identifier
      `src` and whose value is a string literal. */
  predicate IsSrcProperty(p: Node) {
    && p.Property?
    && p.key.Identifier?
    && p.key.name == "src"
    && p.value.Literal?
    && p.value.literal.StringValue?
  }

  /** The string of a `src` property. */
  function SrcValue(p: Node): string
    requires IsSrcProperty(p)
  {
    p.value.literal.s
  }

  /** `properties.find(isSrcProperty)`, as an index: the first `src` property. */
  function FirstSrc(props: seq<Node>): (r: Option<nat>)
    ensures r.Some? ==> r.value < |props| && IsSrcProperty(props[r.value])
    ensures r.Some? ==> forall j :: 0 <= j < r.value ==> !IsSrcProperty(props[j])
    ensures r.None? ==> forall j :: 0 <= j < |props| ==> !IsSrcProperty(props[j])
  {
    if props == [] then None
    else if IsSrcProperty(props[0]) then Some(0)
    else match FirstSrc(props[1..])
      case None => None
      case Some(i) => Some(i + 1)
  }

  /** The props of an image call. */
  function PropsOf(call: Node): seq<Node> {
    if call.CallExpression? && |call.arguments| >= 2 && call.arguments[1].ObjectExpression?
    then call.arguments[1].properties
    else []
  }
}
