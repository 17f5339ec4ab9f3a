/**
 The value flow that recovers event names: from an argument-list expression back through
 conditional branches, const initialisers and parameters to their call sites. Expressions
 are identified up to the syntax-only wrappers the source peels off.
 */
module EventFlow {
  import opened Wrappers
  import opened Graphs

  datatype Expr = Expr(id: nat)
  datatype Func = Func(id: nat)
  datatype File = File(path: string)

  /** An array element: omitted or spread, or an expression with its finite string values if it has any. */
  datatype Element = Skipped | Valued(values: Option<set<string>>)

  /** A symbol's declaration; a parameter counts only for a non-exported function declaration. */
  datatype Decl = ConstInit(init: Expr) | Param(owner: Func, index: nat) | OtherDecl

  datatype Shape =
    | ArrayLiteral(elements: seq<Element>)
    | Conditional(whenTrue: Expr, whenFalse: Expr)
    | Identifier(decls: seq<Decl>)
    | OtherShape

  datatype Call = Call(file: File, callee: Func, args: seq<Expr>)

  /** The package sources: every expression's shape and every resolved call, in file order. */
  datatype Program = Program(shapes: map<Expr, Shape>, calls: seq<Call>)

  function CallsOf(calls: seq<Call>, owner: Func): seq<Call> {
    if calls == [] then []
    else (if calls[0].callee == owner then [calls[0]] else []) + CallsOf(calls[1..], owner)
  }

  function Arguments(calls: seq<Call>, index: nat): seq<Expr> {
    if calls == [] then []
    else (if index < |calls[0].args| then [calls[0].args[index]] else []) + Arguments(calls[1..], index)
  }

  function DeclSources(p: Program, d: Decl): seq<Expr> {
    match d
    case ConstInit(init) => [init]
    case Param(owner, index) => Arguments(CallsOf(p.calls, owner), index)
    case OtherDecl => []
  }

  function DeclsSources(p: Program, decls: seq<Decl>): seq<Expr> {
    if decls == [] then [] else DeclSources(p, decls[0]) + DeclsSources(p, decls[1..])
  }

  /** Where the value of an expression may come from, one step back. */
  function Sources(p: Program, shape: Shape): seq<Expr> {
    match shape
    case ArrayLiteral(_) => []
    case Conditional(whenTrue, whenFalse) => [whenTrue, whenFalse]
    case Identifier(decls) => DeclsSources(p, decls)
    case OtherShape => []
  }

  /** The values of the first listed element that has a finite set of them. */
  function FirstFinite(elements: seq<Element>): set<string> {
    if elements == [] then {}
    else if elements[0].Valued? && elements[0].values.Some? then elements[0].values.value
    else FirstFinite(elements[1..])
  }

  /** The event slot of an argument array: among its first two elements. */
  function Leaf(shape: Shape): set<string> {
    if shape.ArrayLiteral? then FirstFinite(if |shape.elements| <= 2 then shape.elements else shape.elements[..2])
      else {}
  }

  /** Of an argument array only the first two elements count, and of these the first with finite values. */
  lemma LeafOfArray(elements: seq<Element>, values: set<string>)
    ensures |elements| > 0 && elements[0] == Valued(Some(values)) ==> Leaf(ArrayLiteral(elements)) == values
    ensures (|elements| > 1 && Valueless(elements[0]) && elements[1] == Valued(Some(values))) ==>
              Leaf(ArrayLiteral(elements)) == values
    ensures (forall i | 0 <= i < |elements| && i < 2 :: Valueless(elements[i])) ==> Leaf(ArrayLiteral(elements)) == {}
  {
    if |elements| > 1 {
      assert (if |elements| <= 2 then elements else elements[..2]) == [elements[0], elements[1]];
      TwoSlots(elements[0], elements[1]);
    } else if |elements| == 1 {
      assert elements[1..] == [] && FirstFinite([]) == {};
    }
  }

  /** Omitted, spread, or without a finite set of strings. */
  predicate Valueless(e: Element) {
    e == Skipped || e == Valued(None)
  }

  lemma TwoSlots(a: Element, b: Element)
    ensures FirstFinite([a, b]) == if !Valueless(a) then a.values.value else if !Valueless(b) then b.values.value
            else {}
  {
    assert [a, b][1..] == [b] && [b][1..] == [];
    assert FirstFinite([]) == {} && FirstFinite([b]) == if !Valueless(b) then b.values.value else {};
  }

  lemma OtherShapesHaveNoValue(shape: Shape)
    requires !shape.ArrayLiteral?
    ensures Leaf(shape) == {}
  {
  }

  /**
   One step back: both branches, a constant's initialiser, or a parameter's argument in every call of its
   function.
   */
  lemma SourcesAre(p: Program, shape: Shape, x: Expr)
    ensures x in Sources(p, shape)
            <==> || (shape.Conditional? && (x == shape.whenTrue || x == shape.whenFalse))
                 || (shape.Identifier? && exists d :: d in shape.decls && ComesFrom(p, d, x))
  {
    if shape.Identifier? {
      DeclsSourcesAre(p, shape.decls, x);
    }
  }

  ghost predicate ComesFrom(p: Program, d: Decl, x: Expr) {
    || d == ConstInit(x)
    || (d.Param? && exists c :: c in p.calls && c.callee == d.owner && d.index < |c.args| && c.args[d.index] == x)
  }

  lemma {:induction false} DeclsSourcesAre(p: Program, decls: seq<Decl>, x: Expr)
    ensures x in DeclsSources(p, decls) <==> exists d :: d in decls && ComesFrom(p, d, x)
  {
    if decls != [] {
      DeclsSourcesAre(p, decls[1..], x);
      DeclSourcesAre(p, decls[0], x);
      assert forall d :: d in decls <==> d == decls[0] || d in decls[1..];
    }
  }

  lemma DeclSourcesAre(p: Program, d: Decl, x: Expr)
    ensures x in DeclSources(p, d) <==> ComesFrom(p, d, x)
  {
    if d.Param? {
      ArgumentsAre(p.calls, d.owner, d.index, x);
    }
  }

  lemma {:induction false} ArgumentsAre(calls: seq<Call>, owner: Func, index: nat, x: Expr)
    ensures x in Arguments(CallsOf(calls, owner), index)
            <==> exists c :: c in calls && c.callee == owner && index < |c.args| && c.args[index] == x
  {
    if calls != [] {
      ArgumentsAre(calls[1..], owner, index, x);
      assert forall c :: c in calls <==> c == calls[0] || c in calls[1..];
      if calls[0].callee == owner {
        assert CallsOf(calls, owner) == [calls[0]] + CallsOf(calls[1..], owner);
        assert CallsOf(calls, owner)[1..] == CallsOf(calls[1..], owner);
      } else {
        assert CallsOf(calls, owner) == [] + CallsOf(calls[1..], owner) == CallsOf(calls[1..], owner);
      }
    }
  }

  ghost function Free(p: Program, seen: set<Expr>): set<Expr> {
    p.shapes.Keys - seen
  }

  lemma FreeShrinks(p: Program, seen: set<Expr>, e: Expr)
    requires e in p.shapes && e !in seen
    ensures Free(p, seen + {e}) < Free(p, seen)
  {
    assert e in Free(p, seen);
  }

  /** The traversal, each branch with its own copy of the expressions seen on the way. */
  function Flow(p: Program, e: Expr, seen: set<Expr>): set<string>
    decreases Free(p, seen), 1, 0
  {
    if e in seen || e !in p.shapes then {}
    else
      FreeShrinks(p, seen, e);
      Leaf(p.shapes[e]) + FlowAll(p, Sources(p, p.shapes[e]), seen + {e})
  }

  function FlowAll(p: Program, es: seq<Expr>, seen: set<Expr>): set<string>
    decreases Free(p, seen), 2, |es|
  {
    if es == [] then {} else Flow(p, es[0], seen) + FlowAll(p, es[1..], seen)
  }

  lemma {:induction false} FlowAllMember(p: Program, es: seq<Expr>, seen: set<Expr>, v: string)
    ensures v in FlowAll(p, es, seen) <==> exists i :: 0 <= i < |es| && v in Flow(p, es[i], seen)
    decreases |es|
  {
    if es != [] {
      FlowAllMember(p, es[1..], seen, v);
      if i :| 0 <= i < |es[1..]| && v in Flow(p, es[1..][i], seen) {
        assert v in Flow(p, es[i + 1], seen);
      }
      if i :| 0 <= i < |es| && v in Flow(p, es[i], seen) {
        assert i > 0 ==> v in Flow(p, es[1..][i - 1], seen);
      }
    }
  }

  lemma {:induction false} FlowAllAppend(p: Program, a: seq<Expr>, b: seq<Expr>, seen: set<Expr>)
    ensures FlowAll(p, a + b, seen) == FlowAll(p, a, seen) + FlowAll(p, b, seen)
    decreases |a|
  {
    if a == [] {
      assert a + b == b;
    } else {
      assert (a + b)[1..] == a[1..] + b;
      FlowAllAppend(p, a[1..], b, seen);
    }
  }

  // ----- what it computes: plain reachability

  ghost function FlowGraph(p: Program): Graph<Expr> {
    map e | e in p.shapes :: Sources(p, p.shapes[e])
  }

  /** A walk from `e` that meets no expression of `seen` and ends at an array slot holding `v`. */
  ghost predicate ValueWalk(p: Program, w: seq<Expr>, e: Expr, seen: set<Expr>, v: string) {
    && Walk(FlowGraph(p), w) && w[0] == e
    && (forall x | x in w :: x !in seen)
    && w[|w| - 1] in p.shapes && v in Leaf(p.shapes[w[|w| - 1]])
  }

  lemma WalkOfValue(p: Program, e: Expr, seen: set<Expr>, c: Expr, w: seq<Expr>, v: string)
    requires e in p.shapes && e !in seen && c in Sources(p, p.shapes[e])
    requires ValueWalk(p, w, c, seen + {e}, v)
    ensures ValueWalk(p, [e] + w, e, seen, v)
  {
    WalkCons(FlowGraph(p), e, w);
    forall x | x in [e] + w
      ensures x !in seen
    {
      if x in w {
        assert x !in seen + {e};
      }
    }
  }

  /** Soundness: every reported value sits at the end of a walk. */
  lemma {:induction false} FlowIsReached(p: Program, e: Expr, seen: set<Expr>, v: string) returns (w: seq<Expr>)
    requires v in Flow(p, e, seen)
    ensures ValueWalk(p, w, e, seen, v)
    decreases Free(p, seen)
  {
    if v in Leaf(p.shapes[e]) {
      w := [e];
    } else {
      FreeShrinks(p, seen, e);
      var es := Sources(p, p.shapes[e]);
      FlowAllMember(p, es, seen + {e}, v);
      var i :| 0 <= i < |es| && v in Flow(p, es[i], seen + {e});
      var rest := FlowIsReached(p, es[i], seen + {e}, v);
      WalkOfValue(p, e, seen, es[i], rest, v);
      w := [e] + rest;
    }
  }

  /** A walk can be cut down to one that never returns to its start. */
  lemma {:induction false} LeaveStartForGood(p: Program, w: seq<Expr>, e: Expr, seen: set<Expr>,
                                             v: string) returns (u: seq<Expr>)
    requires ValueWalk(p, w, e, seen, v)
    ensures ValueWalk(p, u, e, seen, v) && e !in u[1..]
    decreases |w|
  {
    if k :| 1 <= k < |w| && w[k] == e {
      var shorter := w[k..];
      forall i | 0 <= i < |shorter| - 1
        ensures Edge(FlowGraph(p), shorter[i], shorter[i + 1])
      {
        assert Edge(FlowGraph(p), w[k + i], w[k + i + 1]);
      }
      u := LeaveStartForGood(p, shorter, e, seen, v);
    } else {
      u := w;
    }
  }

  /** Completeness: the path-local guard cuts off no value. */
  lemma {:induction false} ReachedIsFlow(p: Program, w: seq<Expr>, e: Expr, seen: set<Expr>, v: string)
    requires ValueWalk(p, w, e, seen, v)
    ensures v in Flow(p, e, seen)
    decreases Free(p, seen)
  {
    var u := LeaveStartForGood(p, w, e, seen, v);
    assert e in u && e !in seen;
    if |u| > 1 {
      WalkTail(FlowGraph(p), u);
      FreeShrinks(p, seen, e);
      var es := Sources(p, p.shapes[e]);
      var i :| 0 <= i < |es| && es[i] == u[1];
      forall x | x in u[1..]
        ensures x !in seen + {e}
      {
        assert x in u;
      }
      ReachedIsFlow(p, u[1..], es[i], seen + {e}, v);
      FlowAllMember(p, es, seen + {e}, v);
    }
  }

  /** A value is found exactly when some array slot that holds it is reachable. */
  lemma FlowIsReachability(p: Program, e: Expr, v: string)
    ensures v in Flow(p, e, {})
            <==> e in p.shapes && (v in Leaf(p.shapes[e])
                                   || exists x ::
                                        Reaches(FlowGraph(p), e, x) && x in p.shapes && v in Leaf(p.shapes[x]))
  {
    if v in Flow(p, e, {}) {
      var w := FlowIsReached(p, e, {}, v);
      if |w| > 1 {
        assert WalkFromTo(FlowGraph(p), w, e, w[|w| - 1]);
      }
    }
    if e in p.shapes && v in Leaf(p.shapes[e]) {
      assert ValueWalk(p, [e], e, {}, v);
      ReachedIsFlow(p, [e], e, {}, v);
    }
    if x :| Reaches(FlowGraph(p), e, x) && x in p.shapes && v in Leaf(p.shapes[x]) {
      var w :| |w| >= 2 && WalkFromTo(FlowGraph(p), w, e, x);
      assert ValueWalk(p, w, e, {}, v);
      ReachedIsFlow(p, w, e, {}, v);
    }
  }
}
