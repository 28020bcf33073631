/** The subset of ESTree (the JavaScript syntax-tree format produced for a
    compiled MDX document) that the image plugin reads or builds.

    Node kinds the plugin never inspects are kept as `OtherNode`, with their
    child nodes in field order, so that a traversal still reaches every call
    expression nested inside them. */
module Estree {

  datatype LiteralValue =
    | StringValue(s: string)
    | NumberValue(n: int)
    | BooleanValue(b: bool)
    | NullValue

  datatype PropertyKind = Init | Getter | Setter

  /** The imported name of an import specifier: an identifier, or a string
      literal (`import {"a-b" as c}`), which has no `name`. */
  datatype ModuleExportName = ExportIdentifier(name: string) | ExportString(text: string)

  datatype Node =
    | Identifier(name: string)
    | Literal(literal: LiteralValue)
    | MemberExpression(object: Node, property: Node, computed: bool)
    | CallExpression(callee: Node, arguments: seq<Node>)
    | ObjectExpression(properties: seq<Node>)
    | Property(key: Node, value: Node, kind: PropertyKind, isMethod: bool,
               shorthand: bool, computed: bool)
    | SpreadElement(argument: Node)
      /** Identifiers and the source literal of an import are kept as the
          strings they hold; nothing the plugin looks for can nest in them. */
    | ImportDeclaration(specifiers: seq<Node>, source: string)
    | ImportSpecifier(imported: ModuleExportName, local: string)
    | ImportDefaultSpecifier(local: string)
    | OtherNode(nodeType: string, children: seq<Node>)

  datatype Program = Program(body: seq<Node>) {
    /** The program as the root node a traversal starts from. */
    function Root(): Node {
      OtherNode("Program", body)
    }
  }

  /** The child nodes of `n`, in the order a depth-first visit meets them. */
  function Children(n: Node): (cs: seq<Node>)
    ensures forall i :: 0 <= i < |cs| ==> cs[i] < n
  {
    match n
    case Identifier(_) => []
    case Literal(_) => []
    case MemberExpression(o, p, _) => [o, p]
    case CallExpression(callee, args) => [callee] + args
    case ObjectExpression(ps) => ps
    case Property(k, v, _, _, _, _) => [k, v]
    case SpreadElement(a) => [a]
    case ImportDeclaration(specs, _) => specs
    case ImportSpecifier(_, _) => []
    case ImportDefaultSpecifier(_) => []
    case OtherNode(_, ch) => ch
  }

  /** Same constructor, and for an object expression the same number of
      properties: what a traversal that only rewrites call arguments keeps. */
  predicate SameKind(a: Node, b: Node) {
    match a
    case Identifier(_) => b.Identifier?
    case Literal(_) => b.Literal?
    case MemberExpression(_, _, _) => b.MemberExpression?
    case CallExpression(_, _) => b.CallExpression?
    case ObjectExpression(ps) => b.ObjectExpression? && |b.properties| == |ps|
    case Property(_, _, _, _, _, _) => b.Property?
    case SpreadElement(_) => b.SpreadElement?
    case ImportDeclaration(_, _) => b.ImportDeclaration?
    case ImportSpecifier(_, _) => b.ImportSpecifier?
    case ImportDefaultSpecifier(_) => b.ImportDefaultSpecifier?
    case OtherNode(k, cs) => b.OtherNode? && b.nodeType == k && |b.children| == |cs|
  }

  /** `n` with its children replaced, position by position, by `cs`; the
      argument list of a call is taken as given in `args`. */
  function Rebuild(n: Node, cs: seq<Node>, args: seq<Node>): (r: Node)
    requires |cs| == |Children(n)|
    ensures SameKind(n, r)
    ensures n.CallExpression? ==> r.arguments == args
  {
    match n
    case Identifier(_) => n
    case Literal(_) => n
    case MemberExpression(_, _, c) => MemberExpression(cs[0], cs[1], c)
    case CallExpression(_, _) => CallExpression(cs[0], args)
    case ObjectExpression(_) => ObjectExpression(cs)
    case Property(_, _, _, _, _, _) => n.(key := cs[0], value := cs[1])
    case SpreadElement(_) => SpreadElement(cs[0])
    case ImportDeclaration(_, src) => ImportDeclaration(cs, src)
    case ImportSpecifier(_, _) => n
    case ImportDefaultSpecifier(_) => n
    case OtherNode(k, _) => OtherNode(k, cs)
  }

  /** Every node of the tree rooted at `n`, in depth-first pre-order (the
      order in which a visit enters them). */
  function Nodes(n: Node): (r: seq<Node>)
    ensures |r| >= 1 && r[0] == n
    decreases n, 1
  {
    [n] + NodesOf(Children(n), n)
  }

  function NodesOf(cs: seq<Node>, ghost parent: Node): seq<Node>
    requires forall i :: 0 <= i < |cs| ==> cs[i] < parent
    decreases parent, 0, |cs|
  {
    if cs == [] then [] else Nodes(cs[0]) + NodesOf(cs[1..], parent)
  }
}
