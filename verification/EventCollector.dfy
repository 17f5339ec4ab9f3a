/**
 The collector that computes the flow, with its call-site caches. The fast path indexes
 only a helper's own file; it must never change an answer.
 */
module EventCollector {
  import opened Wrappers
  import opened EventFlow

  type Index = map<Func, seq<Call>>

  /** A use of a function's name, and whether it is the callee of a call. */
  datatype NameUse = NameUse(file: File, target: Func, callee: bool)

  datatype Package = Package(
    program: Program,
    home: map<Func, File>,
    exported: set<Func>,
    modules: set<File>,
    uses: seq<NameUse>)

  /** `provenLocalCallee`: not exported, in a module, and only ever called inside its file. */
  predicate ProvenLocal(k: Package, owner: Func)
    requires owner in k.home
  {
    && owner !in k.exported
    && k.home[owner] in k.modules
    && forall u | u in k.uses :: u.file == k.home[owner] && u.target == owner ==> u.callee
  }

  /** How a function can be called from another file: by export, by global scope, or handed on by its own file. */
  ghost predicate Escapes(k: Package, owner: Func)
    requires owner in k.home
  {
    || owner in k.exported
    || k.home[owner] !in k.modules
    || exists u :: u in k.uses && u.file == k.home[owner] && u.target == owner && !u.callee
  }

  /** Module scoping: what is called from another file escapes. */
  ghost predicate ModuleScoping(k: Package) {
    forall c | c in k.program.calls && c.callee in k.home && c.file != k.home[c.callee] :: Escapes(k, c.callee)
  }

  lemma ProvenIffKept(k: Package, owner: Func)
    requires owner in k.home
    ensures ProvenLocal(k, owner) <==> !Escapes(k, owner)
  {
  }

  function CallsIn(calls: seq<Call>, file: File): seq<Call> {
    if calls == [] then []
    else (if calls[0].file == file then [calls[0]] else []) + CallsIn(calls[1..], file)
  }

  ghost predicate IndexExact(index: Index, calls: seq<Call>) {
    forall owner :: (if owner in index then index[owner] else []) == CallsOf(calls, owner)
  }

  lemma {:induction false} CallsOfAppend(a: seq<Call>, b: seq<Call>, owner: Func)
    ensures CallsOf(a + b, owner) == CallsOf(a, owner) + CallsOf(b, owner)
  {
    if a == [] {
      assert a + b == b;
    } else {
      assert (a + b)[1..] == a[1..] + b;
      CallsOfAppend(a[1..], b, owner);
    }
  }

  lemma {:induction false} CallsOfOwnFile(calls: seq<Call>, file: File, owner: Func)
    requires forall c | c in calls && c.callee == owner :: c.file == file
    ensures CallsOf(CallsIn(calls, file), owner) == CallsOf(calls, owner)
  {
    if calls != [] {
      CallsOfOwnFile(calls[1..], file, owner);
      assert calls[0] in calls;
      CallsOfAppend(if calls[0].file == file then [calls[0]] else [], CallsIn(calls[1..], file), owner);
      assert CallsOf([calls[0]], owner) == (if calls[0].callee == owner then [calls[0]] else []) + CallsOf([], owner);
    }
  }

  ghost predicate OwnFileOnly(calls: seq<Call>, file: File, owner: Func) {
    forall c | c in calls && c.callee == owner :: c.file == file
  }

  lemma {:induction false} CallsOfFewer(calls: seq<Call>, file: File, owner: Func)
    ensures |CallsOf(CallsIn(calls, file), owner)| <= |CallsOf(calls, owner)|
    ensures |CallsOf(CallsIn(calls, file), owner)| == |CallsOf(calls, owner)| ==> OwnFileOnly(calls, file, owner)
  {
    if calls != [] {
      CallsOfFewer(calls[1..], file, owner);
      CallsOfAppend(if calls[0].file == file then [calls[0]] else [], CallsIn(calls[1..], file), owner);
      CallsOfOne(calls[0], owner);
      assert calls == [calls[0]] + calls[1..];
    }
  }

  /** The scoping fact is exactly what the fast path needs: without it, some proven helper loses a call. */
  lemma FastPathIsExactIff(k: Package)
    ensures ModuleScoping(k)
            <==> forall owner | owner in k.home && !Escapes(k, owner) ::
                   CallsOf(CallsIn(k.program.calls, k.home[owner]), owner) == CallsOf(k.program.calls, owner)
  {
    forall owner | owner in k.home && !Escapes(k, owner)
      ensures CallsOf(CallsIn(k.program.calls, k.home[owner]), owner) == CallsOf(k.program.calls, owner)
              <==> OwnFileOnly(k.program.calls, k.home[owner], owner)
    {
      CallsOfFewer(k.program.calls, k.home[owner], owner);
      if OwnFileOnly(k.program.calls, k.home[owner], owner) {
        CallsOfOwnFile(k.program.calls, k.home[owner], owner);
      }
    }
  }

  /** `buildCallSiteIndex`: one pass that appends every call to its callee's list. */
  method BuildCallSiteIndex(calls: seq<Call>) returns (index: Index)
    ensures IndexExact(index, calls)
  {
    index := map[];
    for k := 0 to |calls|
      invariant IndexExact(index, calls[..k])
    {
      var callee := calls[k].callee;
      IndexGrows(index, calls, k);
      index := index[callee := (if callee in index then index[callee] else []) + [calls[k]]];
    }
    assert calls[..|calls|] == calls;
  }

  lemma IndexGrows(index: Index, calls: seq<Call>, k: nat)
    requires k < |calls| && IndexExact(index, calls[..k])
    ensures var callee := calls[k].callee;
            IndexExact(index[callee := (if callee in index then index[callee] else []) + [calls[k]]], calls[..k + 1])
  {
    var c := calls[k];
    var after := index[c.callee := (if c.callee in index then index[c.callee] else []) + [c]];
    assert calls[..k] + [c] == calls[..k + 1];
    forall owner
      ensures (if owner in after then after[owner] else []) == CallsOf(calls[..k + 1], owner)
    {
      CallsOfAppend(calls[..k], [c], owner);
      CallsOfOne(c, owner);
      assert (if owner in index then index[owner] else []) == CallsOf(calls[..k], owner);
    }
  }

  lemma CallsOfOne(c: Call, owner: Func)
    ensures CallsOf([c], owner) == if c.callee == owner then [c] else []
  {
    assert [c][1..] == [];
  }

  class Collector {
    const k: Package
    var fileCallSites: map<File, Index>
    var localCalleeProofs: map<Func, bool>
    var globalCallSites: Option<Index>

    constructor (k: Package)
      requires ModuleScoping(k)
      ensures this.k == k && Valid()
    {
      this.k := k;
      fileCallSites, localCalleeProofs, globalCallSites := map[], map[], None;
    }

    /** Every cache entry is what a fresh computation would give. */
    ghost predicate Valid()
      reads this
    {
      && ModuleScoping(k)
      && (globalCallSites.Some? ==> IndexExact(globalCallSites.value, k.program.calls))
      && (forall file | file in fileCallSites :: IndexExact(fileCallSites[file], CallsIn(k.program.calls, file)))
      && (forall owner | owner in localCalleeProofs ::
           owner in k.home && localCalleeProofs[owner] == ProvenLocal(k, owner))
    }

    method ProvenLocalCallee(owner: Func) returns (proven: bool)
      requires Valid() && owner in k.home
      modifies this`localCalleeProofs
      ensures Valid() && (proven <==> !Escapes(k, owner))
    {
      ProvenIffKept(k, owner);
      if owner in localCalleeProofs {
        return localCalleeProofs[owner];
      }
      proven := ProvenLocal(k, owner);
      localCalleeProofs := localCalleeProofs[owner := proven];
    }

    /** Whatever the caches hold, the answer is the list of all resolved calls in package order. */
    method CallSitesFor(owner: Func) returns (calls: seq<Call>)
      requires Valid() && owner in k.home
      modifies this
      ensures Valid() && calls == CallsOf(k.program.calls, owner)
    {
      if globalCallSites.None? {
        var proven := ProvenLocalCallee(owner);
        if !proven {
          var index := BuildCallSiteIndex(k.program.calls);
          globalCallSites := Some(index);
        }
      }
      if globalCallSites.Some? {
        var index := globalCallSites.value;
        return if owner in index then index[owner] else [];
      }
      var file := k.home[owner];
      if file !in fileCallSites {
        var index := BuildCallSiteIndex(CallsIn(k.program.calls, file));
        fileCallSites := fileCallSites[file := index];
      }
      CallsOfOwnFile(k.program.calls, file, owner);
      var index := fileCallSites[file];
      return if owner in index then index[owner] else [];
    }

    /** Every followed parameter belongs to a function declared in the package. */
    ghost predicate OwnersKnown()
    {
      forall e, d | e in k.program.shapes && k.program.shapes[e].Identifier? && d in k.program.shapes[e].decls
        && d.Param? ::
        d.owner in k.home
    }

    method EventNamesFromArgumentList(e: Expr, seen: set<Expr>) returns (events: set<string>)
      requires Valid() && OwnersKnown()
      modifies this
      ensures Valid() && events == Flow(k.program, e, seen)
      decreases Free(k.program, seen), 2, 0
    {
      if e in seen || e !in k.program.shapes {
        return {};
      }
      FreeShrinks(k.program, seen, e);
      match k.program.shapes[e]
      case ArrayLiteral(elements) =>
        events := EventNamesFromElements(if |elements| <= 2 then elements else elements[..2]);
      case Conditional(whenTrue, whenFalse) =>
        events := EventNamesFromArgumentList(whenTrue, seen + {e});
        var other := EventNamesFromArgumentList(whenFalse, seen + {e});
        events := events + other;
        assert FlowAll(k.program, [whenTrue, whenFalse], seen + {e})
            == Flow(k.program, whenTrue, seen + {e}) + FlowAll(k.program, [whenFalse], seen + {e});
      case Identifier(decls) =>
        events := EventNamesFromDecls(decls, seen + {e});
      case OtherShape =>
        events := {};
    }

    method EventNamesFromElements(elements: seq<Element>) returns (events: set<string>)
      ensures events == FirstFinite(elements)
    {
      for i := 0 to |elements|
        invariant FirstFinite(elements) == FirstFinite(elements[i..])
      {
        if elements[i].Valued? && elements[i].values.Some? {
          return elements[i].values.value;
        }
      }
      return {};
    }

    method EventNamesFromDecls(decls: seq<Decl>, seen: set<Expr>) returns (events: set<string>)
      requires Valid() && OwnersKnown() && forall d | d in decls && d.Param? :: d.owner in k.home
      modifies this
      ensures Valid() && events == FlowAll(k.program, DeclsSources(k.program, decls), seen)
      decreases Free(k.program, seen), 5, 0
    {
      events := {};
      for i := 0 to |decls|
        invariant Valid()
        invariant FlowAll(k.program, DeclsSources(k.program, decls), seen)
               == events + FlowAll(k.program, DeclsSources(k.program, decls[i..]), seen)
      {
        var found := EventNamesFromDecl(decls[i], seen);
        FlowOfDecl(decls, i, seen);
        events := events + found;
      }
    }

    /** One declaration of a name: a constant's initializer, or a parameter. */
    method EventNamesFromDecl(decl: Decl, seen: set<Expr>) returns (events: set<string>)
      requires Valid() && OwnersKnown() && (decl.Param? ==> decl.owner in k.home)
      modifies this
      ensures Valid() && events == FlowAll(k.program, DeclSources(k.program, decl), seen)
      decreases Free(k.program, seen), 4, 0
    {
      match decl {
        case ConstInit(init) =>
          events := EventNamesFromArgumentList(init, seen);
          FlowOfOne(init, seen);
        case Param(owner, index) =>
          events := EventNamesFromParameter(owner, index, seen);
        case OtherDecl =>
          events := {};
      }
    }

    lemma FlowOfOne(e: Expr, seen: set<Expr>)
      ensures FlowAll(k.program, [e], seen) == Flow(k.program, e, seen)
    {
      assert [e][1..] == [];
    }

    lemma FlowOfDecl(decls: seq<Decl>, i: nat, seen: set<Expr>)
      requires i < |decls|
      ensures FlowAll(k.program, DeclsSources(k.program, decls[i..]), seen)
           == FlowAll(k.program, DeclSources(k.program, decls[i]), seen)
              + FlowAll(k.program, DeclsSources(k.program, decls[i + 1..]), seen)
    {
      assert decls[i..][1..] == decls[i + 1..];
      FlowAllAppend(k.program, DeclSources(k.program, decls[i]), DeclsSources(k.program, decls[i + 1..]), seen);
    }

    lemma FlowOfArgument(calls: seq<Call>, i: nat, index: nat, seen: set<Expr>)
      requires i < |calls|
      ensures FlowAll(k.program, Arguments(calls[i..], index), seen)
           == (if index < |calls[i].args| then Flow(k.program, calls[i].args[index], seen) else {})
              + FlowAll(k.program, Arguments(calls[i + 1..], index), seen)
    {
      assert calls[i..][1..] == calls[i + 1..];
      if index < |calls[i].args| {
        var es := [calls[i].args[index]] + Arguments(calls[i + 1..], index);
        assert Arguments(calls[i..], index) == es && es[1..] == Arguments(calls[i + 1..], index);
      } else {
        assert [] + Arguments(calls[i + 1..], index) == Arguments(calls[i + 1..], index);
      }
    }

    /** Follow a parameter back to the argument at its position in every call of its function. */
    method EventNamesFromParameter(owner: Func, index: nat, seen: set<Expr>) returns (events: set<string>)
      requires Valid() && OwnersKnown() && owner in k.home
      modifies this
      ensures Valid() && events == FlowAll(k.program, Arguments(CallsOf(k.program.calls, owner), index), seen)
      decreases Free(k.program, seen), 3, 0
    {
      events := {};
      var calls := CallSitesFor(owner);
      for i := 0 to |calls|
        invariant Valid()
        invariant FlowAll(k.program, Arguments(calls, index), seen)
               == events + FlowAll(k.program, Arguments(calls[i..], index), seen)
      {
        FlowOfArgument(calls, i, index, seen);
        if index < |calls[i].args| {
          var found := EventNamesFromArgumentList(calls[i].args[index], seen);
          events := events + found;
        }
      }
    }
  }
}
