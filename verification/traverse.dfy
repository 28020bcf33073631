/** The traversal both variants build on (`visitAsync`, src/index.ts:267-279
    and index.js:154-163): collect every node that passes the image-call test
    in pre-order, then run the call-site visitor on each collected node.

    The model runs the visitor on each call site in pre-order, threading the
    visitor's state (the image table, the counter, the files written) from
    one site to the next. A visitor reads only its own call's original
    arguments and reassigns only its own call's argument list, so the tree is
    rebuilt bottom-up: a site's visitor sees the call as parsed, and its
    rewrite is applied to the arguments as already rewritten by the sites
    nested inside them. */
module Traverse {
  import opened Wrappers
  import opened Estree
  import opened Matcher

  /** What a call-site visitor does to the argument list of its call. */
  datatype Rewrite =
    | Keep
      /** `[arguments[0], {...arguments[1], properties}, ...rest]` where
          property j becomes `props[j]` when that is `Some`, and the arguments
          after the second survive only when `keepRest` holds. */
    | Replace(props: seq<Option<Node>>, keepRest: bool)

  /** Each position replaced where the mask has a node, kept otherwise. */
  function Overlay(mask: seq<Option<Node>>, ps: seq<Node>): seq<Node>
    requires |mask| == |ps|
  {
    seq(|ps|, j requires 0 <= j < |ps| => if mask[j].Some? then mask[j].value else ps[j])
  }

  /** The argument list after a rewrite. */
  function Apply(rw: Rewrite, args: seq<Node>): seq<Node> {
    match rw
    case Keep => args
    case Replace(mask, keepRest) =>
      if |args| >= 2 && args[1].ObjectExpression? && |mask| == |args[1].properties| then
        [args[0], ObjectExpression(Overlay(mask, args[1].properties))]
          + (if keepRest then args[2..] else [])
      else args
  }

  /** Walk the tree rooted at `n`: visit `n` if it is an image call, then its
      children left to right, then put `n` back together. The first failing
      visit fails the walk. */
  function Walk<S, E>(n: Node, s: S, names: set<string>,
                      visit: (Node, S) -> Result<(Rewrite, S), E>): (r: Result<(Node, S), E>)
    ensures r.Success? ==> SameKind(n, r.value.0)
    decreases n, 1
  {
    var step := if IsImageCall(n, names) then visit(n, s) else Success((Keep, s));
    if step.Failure? then Failure(step.error)
    else
      var inner := WalkOf(Children(n), step.value.1, names, visit, n);
      if inner.Failure? then Failure(inner.error)
      else
        var cs := inner.value.0;
        var args := if n.CallExpression? then Apply(step.value.0, cs[1..]) else [];
        Success((Rebuild(n, cs, args), inner.value.1))
  }

  function WalkOf<S, E>(cs: seq<Node>, s: S, names: set<string>,
                        visit: (Node, S) -> Result<(Rewrite, S), E>,
                        ghost parent: Node): (r: Result<(seq<Node>, S), E>)
    requires forall i :: 0 <= i < |cs| ==> cs[i] < parent
    ensures r.Success? ==> |r.value.0| == |cs|
    ensures r.Success? ==> forall i :: 0 <= i < |cs| ==> SameKind(cs[i], r.value.0[i])
    decreases parent, 0, |cs|
  {
    if cs == [] then Success(([], s))
    else
      var head := Walk(cs[0], s, names, visit);
      if head.Failure? then Failure(head.error)
      else
        var tail := WalkOf(cs[1..], head.value.1, names, visit, parent);
        if tail.Failure? then Failure(tail.error)
        else Success(([head.value.0] + tail.value.0, tail.value.1))
  }

  /** The visitor run on each node of a list in turn: `matches.map(asyncVisitor)`
      read sequentially. */
  function Fold<S, E>(ms: seq<Node>, s: S, visit: (Node, S) -> Result<(Rewrite, S), E>): Result<S, E> {
    if ms == [] then Success(s)
    else
      var step := visit(ms[0], s);
      if step.Failure? then Failure(step.error) else Fold(ms[1..], step.value.1, visit)
  }

  /** The state part of a walk's outcome. */
  function StateOf<T, S, E>(r: Result<(T, S), E>): Result<S, E> {
    match r
    case Success(v) => Success(v.1)
    case Failure(e) => Failure(e)
  }

  lemma {:induction false} FoldAppend<S, E>(a: seq<Node>, b: seq<Node>, s: S,
                                            visit: (Node, S) -> Result<(Rewrite, S), E>)
    ensures Fold(a + b, s, visit) ==
              match Fold(a, s, visit)
              case Success(t) => Fold(b, t, visit)
              case Failure(e) => Failure(e)
  {
    if a == [] {
      assert a + b == b;
    } else {
      assert (a + b)[0] == a[0];
      assert (a + b)[1..] == a[1..] + b;
      var step := visit(a[0], s);
      if step.Success? {
        FoldAppend(a[1..], b, step.value.1, visit);
      }
    }
  }

  /** Walking the tree threads the state exactly as visiting the collected
      matches one after the other does: the rebuilt tree changes nothing about
      which sites are visited, in which order, or with which node. */
  lemma {:induction false} WalkIsFold<S, E>(n: Node, s: S, names: set<string>,
                                            visit: (Node, S) -> Result<(Rewrite, S), E>)
    ensures StateOf(Walk(n, s, names, visit)) == Fold(Matches(n, names), s, visit)
    decreases n, 1
  {
    var cs := Children(n);
    FilterAppend([n], NodesOf(cs, n), names);
    assert Nodes(n) == [n] + NodesOf(cs, n);
    var own := Filter([n], names);
    assert own == if IsImageCall(n, names) then [n] else [];
    FoldAppend(own, Filter(NodesOf(cs, n), names), s, visit);
    WalkStep(n, s, names, visit);
    var step := if IsImageCall(n, names) then visit(n, s) else Success((Keep, s));
    if step.Success? {
      WalkOfIsFold(cs, step.value.1, names, visit, n);
    }
  }

  /** The state after a walk: the node's own visit, then its children's. */
  lemma WalkStep<S, E>(n: Node, s: S, names: set<string>,
                       visit: (Node, S) -> Result<(Rewrite, S), E>)
    ensures var step := if IsImageCall(n, names) then visit(n, s) else Success((Keep, s));
            StateOf(Walk(n, s, names, visit)) ==
              if step.Failure? then Failure(step.error)
              else StateOf(WalkOf(Children(n), step.value.1, names, visit, n))
  {
  }

  lemma {:induction false} WalkOfIsFold<S, E>(cs: seq<Node>, s: S, names: set<string>,
                                              visit: (Node, S) -> Result<(Rewrite, S), E>,
                                              parent: Node)
    requires forall i :: 0 <= i < |cs| ==> cs[i] < parent
    ensures StateOf(WalkOf(cs, s, names, visit, parent)) ==
              Fold(Filter(NodesOf(cs, parent), names), s, visit)
    decreases parent, 0, |cs|
  {
    if cs != [] {
      var rest := NodesOf(cs[1..], parent);
      FilterAppend(Nodes(cs[0]), rest, names);
      FoldAppend(Matches(cs[0], names), Filter(rest, names), s, visit);
      WalkIsFold(cs[0], s, names, visit);
      WalkOfCons(cs, s, names, visit, parent);
      var head := Walk(cs[0], s, names, visit);
      if head.Success? {
        WalkOfIsFold(cs[1..], head.value.1, names, visit, parent);
      }
    }
  }

  /** The state after a list of subtrees: the first subtree's, then the rest's. */
  lemma WalkOfCons<S, E>(cs: seq<Node>, s: S, names: set<string>,
                         visit: (Node, S) -> Result<(Rewrite, S), E>,
                         parent: Node)
    requires cs != [] && forall i :: 0 <= i < |cs| ==> cs[i] < parent
    ensures var head := Walk(cs[0], s, names, visit);
            StateOf(WalkOf(cs, s, names, visit, parent)) ==
              if head.Failure? then Failure(head.error)
              else StateOf(WalkOf(cs[1..], head.value.1, names, visit, parent))
    ensures Filter(NodesOf(cs, parent), names) ==
              Matches(cs[0], names) + Filter(NodesOf(cs[1..], parent), names)
  {
    FilterAppend(Nodes(cs[0]), NodesOf(cs[1..], parent), names);
  }

  lemma RebuildChildren(n: Node)
    ensures Rebuild(n, Children(n), if n.CallExpression? then n.arguments else []) == n
  {
  }

  /** A tree without image calls comes out of the walk as it went in, and the
      state is untouched. */
  lemma {:induction false} WalkWithoutMatches<S, E>(n: Node, s: S, names: set<string>,
                                                    visit: (Node, S) -> Result<(Rewrite, S), E>)
    requires Matches(n, names) == []
    ensures Walk(n, s, names, visit) == Success((n, s))
    decreases n, 1
  {
    var cs := Children(n);
    FilterAppend([n], NodesOf(cs, n), names);
    assert Nodes(n) == [n] + NodesOf(cs, n);
    assert !IsImageCall(n, names) by {
      assert n in Nodes(n);
    }
    WalkOfWithoutMatches(cs, s, names, visit, n);
    RebuildChildren(n);
  }

  lemma {:induction false} WalkOfWithoutMatches<S, E>(cs: seq<Node>, s: S, names: set<string>,
                                                      visit: (Node, S) -> Result<(Rewrite, S), E>,
                                                      parent: Node)
    requires forall i :: 0 <= i < |cs| ==> cs[i] < parent
    requires Filter(NodesOf(cs, parent), names) == []
    ensures WalkOf(cs, s, names, visit, parent) == Success((cs, s))
    decreases parent, 0, |cs|
  {
    if cs != [] {
      NoMatchesSplit(cs, names, parent);
      WalkWithoutMatches(cs[0], s, names, visit);
      WalkOfWithoutMatches(cs[1..], s, names, visit, parent);
      assert cs == [cs[0]] + cs[1..];
    }
  }

  /** A visitor that never fails makes a walk that never fails. */
  lemma WalkSucceeds<S, E>(n: Node, s: S, names: set<string>,
                           visit: (Node, S) -> Result<(Rewrite, S), E>)
    requires forall m, t :: visit(m, t).Success?
    ensures Walk(n, s, names, visit).Success?
  {
    WalkIsFold(n, s, names, visit);
    FoldSucceeds(Matches(n, names), s, visit);
  }

  lemma {:induction false} FoldSucceeds<S, E>(ms: seq<Node>, s: S,
                                              visit: (Node, S) -> Result<(Rewrite, S), E>)
    requires forall m, t :: visit(m, t).Success?
    ensures Fold(ms, s, visit).Success?
  {
    if ms != [] {
      FoldSucceeds(ms[1..], visit(ms[0], s).value.1, visit);
    }
  }
  // ---------------------------------------------------------------------
  // The tree a walk builds, from the rewrites the visitor answers.

  /** The visitor run on each node of a list in turn, keeping its answers:
      `Fold` with the rewrite of every site collected in order. */
  function Run<S, E>(ms: seq<Node>, s: S, visit: (Node, S) -> Result<(Rewrite, S), E>)
    : (r: Result<(seq<Rewrite>, S), E>)
    ensures r.Success? ==> |r.value.0| == |ms|
  {
    if ms == [] then Success(([], s))
    else
      var step := visit(ms[0], s);
      if step.Failure? then Failure(step.error)
      else
        var rest := Run(ms[1..], step.value.1, visit);
        if rest.Failure? then Failure(rest.error)
        else Success(([step.value.0] + rest.value.0, rest.value.1))
  }

  /** Keeping the answers changes nothing about the state or the failure. */
  lemma {:induction false} RunIsFold<S, E>(ms: seq<Node>, s: S, visit: (Node, S) -> Result<(Rewrite, S), E>)
    ensures StateOf(Run(ms, s, visit)) == Fold(ms, s, visit)
  {
    if ms != [] {
      var step := visit(ms[0], s);
      if step.Success? {
        RunIsFold(ms[1..], step.value.1, visit);
      }
    }
  }

  /** `rws` are the visitor's answers for `ms` from `s`: the k-th is what it
      answers for the k-th node in the state the first k visits leave. */
  ghost predicate Answers<S, E>(ms: seq<Node>, s: S, visit: (Node, S) -> Result<(Rewrite, S), E>,
                                rws: seq<Rewrite>) {
    && |rws| == |ms|
    && forall k :: 0 <= k < |ms| ==>
         && Fold(ms[..k], s, visit).Success?
         && visit(ms[k], Fold(ms[..k], s, visit).value).Success?
         && rws[k] == visit(ms[k], Fold(ms[..k], s, visit).value).value.0
  }

  /** What `Run` keeps is, site by site, the visitor's answer. */
  lemma {:induction false} RunAnswers<S, E>(ms: seq<Node>, s: S, visit: (Node, S) -> Result<(Rewrite, S), E>)
    requires Run(ms, s, visit).Success?
    ensures Answers(ms, s, visit, Run(ms, s, visit).value.0)
  {
    if ms != [] {
      var step := visit(ms[0], s);
      var t := step.value.1;
      var rws := Run(ms, s, visit).value.0;
      RunAnswers(ms[1..], t, visit);
      forall k | 0 <= k < |ms|
        ensures Fold(ms[..k], s, visit).Success?
        ensures visit(ms[k], Fold(ms[..k], s, visit).value).Success?
        ensures rws[k] == visit(ms[k], Fold(ms[..k], s, visit).value).value.0
      {
        if k == 0 {
          assert ms[..0] == [];
        } else {
          assert ms[..k][0] == ms[0] && ms[..k][1..] == ms[1..][..k - 1];
          assert Fold(ms[..k], s, visit) == Fold(ms[1..][..k - 1], t, visit);
          assert ms[k] == ms[1..][k - 1];
        }
      }
    }
  }

  lemma {:induction false} RunAppend<S, E>(a: seq<Node>, b: seq<Node>, s: S,
                                           visit: (Node, S) -> Result<(Rewrite, S), E>)
    ensures Run(a, s, visit).Failure? ==> Run(a + b, s, visit) == Failure(Run(a, s, visit).error)
    ensures Run(a, s, visit).Success? ==>
              var x := Run(a, s, visit).value;
              var y := Run(b, x.1, visit);
              Run(a + b, s, visit) == if y.Failure? then Failure(y.error) else Success((x.0 + y.value.0, y.value.1))
  {
    if a == [] {
      assert a + b == b;
      var y := Run(b, s, visit);
      if y.Success? {
        assert [] + y.value.0 == y.value.0;
      }
    } else {
      assert (a + b)[0] == a[0];
      assert (a + b)[1..] == a[1..] + b;
      var step := visit(a[0], s);
      if step.Success? {
        RunAppend(a[1..], b, step.value.1, visit);
        var x := Run(a, s, visit);
        if x.Success? {
          var y := Run(b, x.value.1, visit);
          if y.Success? {
            assert [step.value.0] + Run(a[1..], step.value.1, visit).value.0 + y.value.0 ==
                   [step.value.0] + (Run(a[1..], step.value.1, visit).value.0 + y.value.0);
          }
        }
      }
    }
  }

  /** The answer for a node's own visit, when it is an image call. */
  lemma RunSingle<S, E>(own: seq<Node>, n: Node, s: S, names: set<string>,
                        visit: (Node, S) -> Result<(Rewrite, S), E>)
    requires own == if IsImageCall(n, names) then [n] else []
    requires Run(own, s, visit).Success?
    ensures var step := if IsImageCall(n, names) then visit(n, s) else Success((Keep, s));
            && step.Success?
            && Run(own, s, visit).value ==
                 (if IsImageCall(n, names) then [step.value.0] else [], step.value.1)
  {
    if IsImageCall(n, names) {
      assert own[1..] == [];
      var step := visit(n, s);
      assert [step.value.0] + [] == [step.value.0];
    }
  }

  /** A node's image calls: itself when it is one, then those of its children. */
  lemma MatchesSplit(n: Node, names: set<string>)
    ensures Matches(n, names) == Filter([n], names) + Filter(NodesOf(Children(n), n), names)
    ensures Filter([n], names) == if IsImageCall(n, names) then [n] else []
  {
    var xs := NodesOf(Children(n), n);
    assert Nodes(n) == [n] + xs;
    FilterCons(n, xs, names);
    FilterCons(n, [], names);
    assert [n] + [] == [n];
  }

  lemma FilterCons(x: Node, xs: seq<Node>, names: set<string>)
    ensures Filter([x] + xs, names) == (if IsImageCall(x, names) then [x] else []) + Filter(xs, names)
  {
    assert ([x] + xs)[1..] == xs;
  }

  /** The tree a walk builds, given the rewrite of each image call in
      pre-order: every call site gets its own rewrite applied to its argument
      list as the sites nested in it left it, and everything else is kept. */
  function Replay(n: Node, names: set<string>, rws: seq<Rewrite>): (r: Node)
    requires |rws| == |Matches(n, names)|
    ensures SameKind(n, r)
    decreases n, 1
  {
    MatchesSplit(n, names);
    var own := if IsImageCall(n, names) then 1 else 0;
    var cs := ReplayOf(Children(n), names, rws[own..], n);
    var rw := if own == 1 then rws[0] else Keep;
    Rebuild(n, cs, if n.CallExpression? then Apply(rw, cs[1..]) else [])
  }

  function ReplayOf(cs: seq<Node>, names: set<string>, rws: seq<Rewrite>, ghost parent: Node): (r: seq<Node>)
    requires forall i :: 0 <= i < |cs| ==> cs[i] < parent
    requires |rws| == |Filter(NodesOf(cs, parent), names)|
    ensures |r| == |cs|
    decreases parent, 0, |cs|
  {
    if cs == [] then []
    else
      FilterAppend(Nodes(cs[0]), NodesOf(cs[1..], parent), names);
      var k := |Matches(cs[0], names)|;
      [Replay(cs[0], names, rws[..k])] + ReplayOf(cs[1..], names, rws[k..], parent)
  }

  /** The statements of a program replayed with the rewrites of its image
      calls, the factory names being those the program imports. */
  function ReplayBody(tree: Program, rws: seq<Rewrite>): (body: seq<Node>)
    requires |rws| == |Matches(tree.Root(), FactoryNames(tree.Root()))|
    ensures |body| == |tree.body|
  {
    var r := Replay(tree.Root(), FactoryNames(tree.Root()), rws);
    assert SameKind(tree.Root(), r);
    r.children
  }

  /** The walk builds exactly the replayed tree of the visitor's answers, and
      leaves the state they leave. */
  lemma {:induction false} WalkIsReplay<S, E>(n: Node, s: S, names: set<string>,
                                              visit: (Node, S) -> Result<(Rewrite, S), E>)
    ensures var run := Run(Matches(n, names), s, visit);
            run.Success? ==> Walk(n, s, names, visit) == Success((Replay(n, names, run.value.0), run.value.1))
    decreases n, 1
  {
    var run := Run(Matches(n, names), s, visit);
    if run.Success? {
      var cs := Children(n);
      MatchesSplit(n, names);
      var own := Filter([n], names);
      var rest := Filter(NodesOf(cs, n), names);
      RunAppend(own, rest, s, visit);
      var step := if IsImageCall(n, names) then visit(n, s) else Success((Keep, s));
      var o := if IsImageCall(n, names) then 1 else 0;
      assert Run(own, s, visit).Success?;
      RunSingle(own, n, s, names, visit);
      var mine: seq<Rewrite> := if IsImageCall(n, names) then [step.value.0] else [];
      var t := step.value.1;
      var tail := Run(rest, t, visit);
      WalkOfIsReplay(cs, t, names, visit, n);
      assert run.value.0 == mine + tail.value.0;
      assert run.value.0[o..] == tail.value.0;
    }
  }

  lemma {:induction false} WalkOfIsReplay<S, E>(cs: seq<Node>, s: S, names: set<string>,
                                                visit: (Node, S) -> Result<(Rewrite, S), E>,
                                                parent: Node)
    requires forall i :: 0 <= i < |cs| ==> cs[i] < parent
    ensures var run := Run(Filter(NodesOf(cs, parent), names), s, visit);
            run.Success? ==>
              WalkOf(cs, s, names, visit, parent) == Success((ReplayOf(cs, names, run.value.0, parent), run.value.1))
    decreases parent, 0, |cs|
  {
    var run := Run(Filter(NodesOf(cs, parent), names), s, visit);
    if cs != [] && run.Success? {
      var restNodes := NodesOf(cs[1..], parent);
      FilterAppend(Nodes(cs[0]), restNodes, names);
      var m := Matches(cs[0], names);
      var rest := Filter(restNodes, names);
      RunAppend(m, rest, s, visit);
      var head := Run(m, s, visit);
      var tail := Run(rest, head.value.1, visit);
      WalkIsReplay(cs[0], s, names, visit);
      WalkOfIsReplay(cs[1..], head.value.1, names, visit, parent);
      assert run.value.0 == head.value.0 + tail.value.0;
      assert run.value.0[..|m|] == head.value.0;
      assert run.value.0[|m|..] == tail.value.0;
    }
  }

  /** A tree without image calls is replayed as it is. */
  lemma {:induction false} ReplayWithoutMatches(n: Node, names: set<string>)
    requires Matches(n, names) == []
    ensures Replay(n, names, []) == n
    decreases n, 1
  {
    MatchesSplit(n, names);
    assert !IsImageCall(n, names) by {
      assert n in Nodes(n);
    }
    ReplayOfWithoutMatches(Children(n), names, n);
    RebuildChildren(n);
  }

  lemma {:induction false} ReplayOfWithoutMatches(cs: seq<Node>, names: set<string>, parent: Node)
    requires forall i :: 0 <= i < |cs| ==> cs[i] < parent
    requires Filter(NodesOf(cs, parent), names) == []
    ensures ReplayOf(cs, names, [], parent) == cs
    decreases parent, 0, |cs|
  {
    if cs != [] {
      ReplayOfWithoutMatchesStep(cs, names, parent);
      ReplayWithoutMatches(cs[0], names);
      ReplayOfWithoutMatches(cs[1..], names, parent);
      assert cs == [cs[0]] + cs[1..];
    }
  }

  /** One unfolding of ReplayOf on a list without image calls. */
  lemma ReplayOfWithoutMatchesStep(cs: seq<Node>, names: set<string>, parent: Node)
    requires cs != [] && forall i :: 0 <= i < |cs| ==> cs[i] < parent
    requires Filter(NodesOf(cs, parent), names) == []
    ensures Matches(cs[0], names) == [] && Filter(NodesOf(cs[1..], parent), names) == []
    ensures ReplayOf(cs, names, [], parent) ==
              [Replay(cs[0], names, [])] + ReplayOf(cs[1..], names, [], parent)
  {
    NoMatchesSplit(cs, names, parent);
    var none: seq<Rewrite> := [];
    assert none[..0] == none[0..] == none;
  }

  /** A list without image calls has none in its head and none in its tail. */
  lemma NoMatchesSplit(cs: seq<Node>, names: set<string>, parent: Node)
    requires cs != [] && forall i :: 0 <= i < |cs| ==> cs[i] < parent
    requires Filter(NodesOf(cs, parent), names) == []
    ensures Matches(cs[0], names) == [] && Filter(NodesOf(cs[1..], parent), names) == []
  {
    var rest := NodesOf(cs[1..], parent);
    assert NodesOf(cs, parent) == Nodes(cs[0]) + rest;
    FilterAppend(Nodes(cs[0]), rest, names);
  }

  /** An image call with no image call nested in it is replayed as the call
      with its own rewrite applied to its arguments. */
  lemma ReplayLeafCall(n: Node, names: set<string>, rw: Rewrite)
    requires IsImageCall(n, names) && Matches(n, names) == [n]
    ensures Replay(n, names, [rw]) == CallExpression(n.callee, Apply(rw, n.arguments))
  {
    MatchesSplit(n, names);
    var cs := Children(n);
    assert Filter(NodesOf(cs, n), names) == [];
    ReplayOfWithoutMatches(cs, names, n);
    assert [rw][1..] == [];
    assert cs[1..] == n.arguments;
  }

  /** Walking an image call with no image call inside it: the visitor's
      rewrite is applied to the call's own arguments, and the state is the
      one the visit leaves. */
  lemma WalkLeafCall<S, E>(n: Node, s: S, names: set<string>,
                           visit: (Node, S) -> Result<(Rewrite, S), E>)
    requires IsImageCall(n, names) && Matches(n, names) == [n]
    requires visit(n, s).Success?
    ensures var step := visit(n, s).value;
            Walk(n, s, names, visit) ==
              Success((CallExpression(n.callee, Apply(step.0, n.arguments)), step.1))
  {
    var step := visit(n, s).value;
    assert Run([n], s, visit) == Success(([step.0], step.1)) by {
      assert [n][1..] == [] && [step.0] + [] == [step.0];
    }
    WalkIsReplay(n, s, names, visit);
    ReplayLeafCall(n, names, step.0);
  }

  /** The image calls under a node that is not one and has one child are
      that child's. */
  lemma OnlyChildMatches(n: Node, names: set<string>)
    requires n.OtherNode? && |n.children| == 1
    ensures Matches(n, names) == Matches(n.children[0], names)
    ensures Filter(NodesOf(n.children, n), names) == Matches(n.children[0], names)
  {
    var xs := Nodes(n.children[0]);
    OnlyChildNodes(n);
    assert Nodes(n) == [n] + xs;
    assert ([n] + xs)[1..] == xs;
    assert !IsImageCall(n, names);
    assert Filter([n] + xs, names) == [] + Filter(xs, names);
  }

  lemma OnlyChildNodes(n: Node)
    requires n.OtherNode? && |n.children| == 1
    ensures NodesOf(n.children, n) == Nodes(n.children[0])
  {
    var c := n.children[0];
    assert n.children[1..] == [];
    assert NodesOf(n.children, n) == Nodes(c) + NodesOf([], n);
    assert Nodes(c) + [] == Nodes(c);
  }

  /** A node that is not an image call, holding one child that is such a
      leaf call, is replayed with that call rewritten and nothing else. */
  lemma ReplayAroundLeafCall(n: Node, names: set<string>, rw: Rewrite)
    requires n.OtherNode? && |n.children| == 1
    requires IsImageCall(n.children[0], names) && Matches(n.children[0], names) == [n.children[0]]
    ensures Matches(n, names) == [n.children[0]]
    ensures Replay(n, names, [rw]) ==
              OtherNode(n.nodeType, [CallExpression(n.children[0].callee, Apply(rw, n.children[0].arguments))])
  {
    var call := n.children[0];
    OnlyChildMatches(n, names);
    var cs := ReplayOf(n.children, names, [rw], n);
    assert cs == [Replay(call, names, [rw])] by {
      assert [rw][..1] == [rw] && [rw][1..] == [];
    }
    assert Replay(n, names, [rw]) == OtherNode(n.nodeType, cs) by {
      assert [rw][0..] == [rw];
    }
    ReplayLeafCall(call, names, rw);
  }

  /** Walking a node that is not an image call and holds one leaf image
      call: that call is rewritten in place and nothing else changes. */
  lemma WalkAroundLeafCall<S, E>(n: Node, s: S, names: set<string>,
                                 visit: (Node, S) -> Result<(Rewrite, S), E>)
    requires n.OtherNode? && |n.children| == 1
    requires IsImageCall(n.children[0], names) && Matches(n.children[0], names) == [n.children[0]]
    requires visit(n.children[0], s).Success?
    ensures var call := n.children[0];
            var step := visit(call, s).value;
            Walk(n, s, names, visit) ==
              Success((OtherNode(n.nodeType, [CallExpression(call.callee, Apply(step.0, call.arguments))]), step.1))
  {
    var call := n.children[0];
    var step := visit(call, s).value;
    ReplayAroundLeafCall(n, names, step.0);
    assert Run([call], s, visit) == Success(([step.0], step.1)) by {
      assert [call][1..] == [] && [step.0] + [] == [step.0];
    }
    WalkIsReplay(n, s, names, visit);
  }
}
