/**
 What a type name means in a file, by the imports that lead from it: the first declaration
 on the chain of package-local imports, or the import from a package at its end.
 */
module PasteChains {
  import opened Wrappers
  import opened TypeWorld
  import opened PasteClosure

  /** Each file of the chain, which has no declaration of the name, imports it under that name from the next. */
  ghost predicate Chain(p: Package, files: seq<File>, name: Name) {
    && files != []
    && forall i | 0 <= i < |files| - 1 ::
         && (files[i], name) !in p.declared && (files[i], name) in p.imports
         && p.imports[(files[i], name)] == Local(files[i + 1], name)
  }

  /** A chain through files of the package, none of them twice. */
  ghost predicate Path(p: Package, from: File, files: seq<File>, name: Name) {
    && Chain(p, files, name) && files[0] == from
    && (forall i | 0 <= i < |files| :: files[i] in p.files)
    && forall i, j | 0 <= i < j < |files| :: files[i] != files[j]
  }

  ghost predicate DeclaresAtEnd(p: Package, files: seq<File>, name: Name, key: Key)
    requires files != []
  {
    var f := files[|files| - 1];
    (f, name) in p.declared && p.declared[(f, name)] == key
  }

  /** The end imports the name, perhaps under another one, from a package. */
  ghost predicate ImportsAtEnd(p: Package, files: seq<File>, name: Name, ref: TypeRef)
    requires files != []
  {
    var f := files[|files| - 1];
    && (f, name) !in p.declared && (f, name) in p.imports
    && p.imports[(f, name)] == External(ref.imported, ref.specifier) && ref.alias == name
  }

  /** The end has no import of the name, one without the extension, or one that renames it. */
  ghost predicate StopsAtEnd(p: Package, files: seq<File>, name: Name)
    requires files != []
  {
    var f := files[|files| - 1];
    && (f, name) !in p.declared
    && ((f, name) in p.imports ==>
          var i := p.imports[(f, name)];
          i == LocalWithoutExtension || (i.Local? && i.imported != name))
  }

  /** The end imports the name from a file that is already on the chain, or that is no file of the package. */
  ghost predicate TurnsBackAtEnd(p: Package, files: seq<File>, name: Name)
    requires files != []
  {
    var f := files[|files| - 1];
    && (f, name) !in p.declared && (f, name) in p.imports
    && p.imports[(f, name)].Local? && p.imports[(f, name)].imported == name
    && (p.imports[(f, name)].target in files || p.imports[(f, name)].target !in p.files)
  }

  // ----- the resolution, along the chain

  ghost predicate Within(files: seq<File>, unvisited: set<File>) {
    && (forall i | 0 <= i < |files| :: files[i] in unvisited)
    && forall i, j | 0 <= i < j < |files| :: files[i] != files[j]
  }

  /** The same ends, with the files still to be visited for those of the package. */
  ghost predicate EndsAs(p: Package, files: seq<File>, name: Name, unvisited: set<File>, r: Resolution)
    requires files != []
  {
    match r
    case ToDecl(key) => DeclaresAtEnd(p, files, name, key)
    case ToRef(ref) => ImportsAtEnd(p, files, name, ref)
    case Unresolved => StopsAtEnd(p, files, name)
    case Circular =>
      var f := files[|files| - 1];
      && (f, name) !in p.declared && (f, name) in p.imports
      && p.imports[(f, name)].Local? && p.imports[(f, name)].imported == name
      && (p.imports[(f, name)].target in files || p.imports[(f, name)].target !in unvisited)
  }

  lemma {:induction false} FollowChain(p: Package, from: File, name: Name,
                                       unvisited: set<File>) returns (files: seq<File>)
    requires from in unvisited
    ensures Chain(p, files, name) && files[0] == from && Within(files, unvisited)
    ensures EndsAs(p, files, name, unvisited, PasteClosure.Resolve(p, from, name, unvisited))
    decreases unvisited
  {
    files := [from];
    if Goes(p, from, name) && p.imports[(from, name)].target in unvisited - {from} {
      var next := p.imports[(from, name)].target;
      var rest := FollowChain(p, next, name, unvisited - {from});
      files := [from] + rest;
      ChainCons(p, from, rest, name);
      ResolveGoes(p, from, name, unvisited);
      EndCons(p, from, rest, name, unvisited, PasteClosure.Resolve(p, from, name, unvisited));
    } else {
      ResolveStops(p, from, name, unvisited);
    }
  }

  lemma ResolveGoes(p: Package, from: File, name: Name, unvisited: set<File>)
    requires from in unvisited && Goes(p, from, name)
    ensures PasteClosure.Resolve(p, from, name, unvisited)
         == PasteClosure.Resolve(p, p.imports[(from, name)].target, name, unvisited - {from})
  {
  }

  lemma ResolveStops(p: Package, from: File, name: Name, unvisited: set<File>)
    requires from in unvisited && (Goes(p, from, name) ==> p.imports[(from, name)].target !in unvisited - {from})
    ensures EndsAs(p, [from], name, unvisited, PasteClosure.Resolve(p, from, name, unvisited))
  {
    if Goes(p, from, name) {
      ResolveGoes(p, from, name, unvisited);
    }
  }

  /** The file neither declares the name nor stops: it imports it unrenamed from another file. */
  ghost predicate Goes(p: Package, f: File, name: Name) {
    (f, name) !in p.declared && (f, name) in p.imports
    && p.imports[(f, name)].Local? && p.imports[(f, name)].imported == name
  }

  lemma ChainCons(p: Package, from: File, rest: seq<File>, name: Name)
    requires Chain(p, rest, name) && Goes(p, from, name) && p.imports[(from, name)].target == rest[0]
    ensures Chain(p, [from] + rest, name)
  {
    var files := [from] + rest;
    forall i | 0 <= i < |files| - 1
      ensures (files[i], name) !in p.declared && (files[i], name) in p.imports
      ensures p.imports[(files[i], name)] == Local(files[i + 1], name)
    {
      if i > 0 {
        assert files[i] == rest[i - 1] && files[i + 1] == rest[i];
      }
    }
  }

  lemma EndCons(p: Package, from: File, rest: seq<File>, name: Name, unvisited: set<File>, r: Resolution)
    requires rest != [] && from in unvisited && EndsAs(p, rest, name, unvisited - {from}, r)
    ensures EndsAs(p, [from] + rest, name, unvisited, r)
  {
    var files := [from] + rest;
    assert files[|files| - 1] == rest[|rest| - 1];
    assert from in files && forall f | f in rest :: f in files;
  }

  /** A chain that ends decides the resolution: no two end differently. */
  lemma {:induction false} ChainDecides(p: Package, files: seq<File>, name: Name, unvisited: set<File>, r: Resolution)
    requires Chain(p, files, name) && Within(files, unvisited) && EndsAs(p, files, name, unvisited, r)
    ensures PasteClosure.Resolve(p, files[0], name, unvisited) == r
    decreases |files|
  {
    if |files| > 1 {
      var rest := files[1..];
      ChainTail(p, files, name, unvisited);
      EndTail(p, files, name, unvisited, r);
      ChainDecides(p, rest, name, unvisited - {files[0]}, r);
      assert p.imports[(files[0], name)] == Local(files[1], name);
    } else {
      assert files == [files[0]];
    }
  }

  lemma ChainTail(p: Package, files: seq<File>, name: Name, unvisited: set<File>)
    requires Chain(p, files, name) && Within(files, unvisited) && |files| > 1
    ensures Chain(p, files[1..], name) && Within(files[1..], unvisited - {files[0]})
  {
    var rest := files[1..];
    forall i | 0 <= i < |rest| - 1
      ensures (rest[i], name) !in p.declared && (rest[i], name) in p.imports
      ensures p.imports[(rest[i], name)] == Local(rest[i + 1], name)
    {
      assert rest[i] == files[i + 1] && rest[i + 1] == files[i + 2];
    }
  }

  lemma EndTail(p: Package, files: seq<File>, name: Name, unvisited: set<File>, r: Resolution)
    requires |files| > 1 && EndsAs(p, files, name, unvisited, r)
    ensures EndsAs(p, files[1..], name, unvisited - {files[0]}, r)
  {
    assert files == [files[0]] + files[1..];
  }

  // ----- what each resolution means

  lemma ResolutionIs(p: Package, from: File, name: Name, r: Resolution)
    requires from in p.files
    ensures ResolveFrom(p, from, name) == r
            <==> exists files :: Path(p, from, files, name) && EndsAs(p, files, name, p.files, r)
  {
    if ResolveFrom(p, from, name) == r {
      var files := FollowChain(p, from, name, p.files);
      assert Path(p, from, files, name);
    }
    if files :| Path(p, from, files, name) && EndsAs(p, files, name, p.files, r) {
      ChainDecides(p, files, name, p.files, r);
    }
  }

  /** A declaration is meant exactly when it is the first on the chain. */
  lemma MeansDeclarationIff(p: Package, from: File, name: Name, key: Key)
    requires from in p.files
    ensures ResolveFrom(p, from, name) == ToDecl(key)
            <==> exists files :: Path(p, from, files, name) && DeclaresAtEnd(p, files, name, key)
  {
    ResolutionIs(p, from, name, ToDecl(key));
    if files :| Path(p, from, files, name) && DeclaresAtEnd(p, files, name, key) {
      assert EndsAs(p, files, name, p.files, ToDecl(key));
    }
  }

  /** An import from a package is meant exactly when the chain ends there, with the name the package exports. */
  lemma MeansImportIff(p: Package, from: File, name: Name, ref: TypeRef)
    requires from in p.files
    ensures ResolveFrom(p, from, name) == ToRef(ref)
            <==> exists files :: Path(p, from, files, name) && ImportsAtEnd(p, files, name, ref)
  {
    ResolutionIs(p, from, name, ToRef(ref));
    if files :| Path(p, from, files, name) && ImportsAtEnd(p, files, name, ref) {
      assert EndsAs(p, files, name, p.files, ToRef(ref));
    }
  }

  lemma MeansNothingIff(p: Package, from: File, name: Name)
    requires from in p.files
    ensures ResolveFrom(p, from, name) == Unresolved
            <==> exists files :: Path(p, from, files, name) && StopsAtEnd(p, files, name)
  {
    ResolutionIs(p, from, name, Unresolved);
    if files :| Path(p, from, files, name) && StopsAtEnd(p, files, name) {
      assert EndsAs(p, files, name, p.files, Unresolved);
    }
  }

  /** The one remaining case is a chain that never ends in the package. */
  lemma RunsInCircleIff(p: Package, from: File, name: Name)
    requires from in p.files
    ensures ResolveFrom(p, from, name) == Circular
            <==> exists files :: Path(p, from, files, name) && TurnsBackAtEnd(p, files, name)
  {
    ResolutionIs(p, from, name, Circular);
    if files :| Path(p, from, files, name) && EndsAs(p, files, name, p.files, Circular) {
      assert TurnsBackAtEnd(p, files, name);
    }
    if files :| Path(p, from, files, name) && TurnsBackAtEnd(p, files, name) {
      assert EndsAs(p, files, name, p.files, Circular);
    }
  }
}
