/**
 The worklist over project references: what it reports is fixed by the configs reachable
 through accepted references, whatever the order of the worklist.
 */
module FaceTraversal {
  import opened Wrappers
  import opened Graphs
  import opened ReferenceFaces
  import Sorting

  function Face(w: World, c: Path): Option<ReferenceFaces.Face>
    requires c in w.files
  {
    var face := ProjectFace(w, c, {});
    if face.Success? then face.value else None
  }

  /** The run stops at this config: it, or a config it extends, cannot be read. */
  predicate Broken(w: World, c: Path)
    requires c in w.files
  {
    ProjectFace(w, c, {}).Failure?
  }

  function References(w: World, c: Path): seq<Reference>
    requires c in w.files
  {
    if w.files[c].Readable? then w.files[c].references else []
  }

  function Violations(w: World, c: Path, face: Option<ReferenceFaces.Face>, refs: seq<Reference>): seq<Violation> {
    if refs == [] then []
    else
      var verdict := Judge(w, SplitRoots(w), c, face, refs[|refs| - 1]);
      Violations(w, c, face, refs[..|refs| - 1]) + if verdict.Some? then [verdict.value] else []
  }

  function Accepted(w: World, c: Path, face: Option<ReferenceFaces.Face>, refs: seq<Reference>): seq<Path> {
    if refs == [] then []
    else
      var verdict := Judge(w, SplitRoots(w), c, face, refs[|refs| - 1]);
      Accepted(w, c, face, refs[..|refs| - 1]) + if verdict.Some? then [] else [refs[|refs| - 1].target]
  }

  function ViolationsAt(w: World, c: Path): seq<Violation> {
    if c in w.files then Violations(w, c, Face(w, c), References(w, c)) else []
  }

  function AcceptedAt(w: World, c: Path): seq<Path>
    requires c in w.files
  {
    Accepted(w, c, Face(w, c), References(w, c))
  }

  /** The accepted references. A target that is no file has no outgoing ones. */
  function AcceptedGraph(w: World): Graph<Path> {
    map c | c in w.files :: AcceptedAt(w, c)
  }

  ghost predicate Aggregate(w: World, c: Path) {
    c == FaceConfig(w.root, Host) || c == FaceConfig(w.root, Client)
  }

  /** An existing config reachable from one of the two aggregates through accepted references. */
  ghost predicate Reached(w: World, c: Path) {
    c in w.files && exists a :: Aggregate(w, a) && (a == c || Reaches(AcceptedGraph(w), a, c))
  }

  lemma {:induction false} ExtendWalk(g: Graph<Path>, p: seq<Path>, b: Path)
    requires Walk(g, p) && Edge(g, p[|p| - 1], b)
    ensures Walk(g, p + [b])
  {
    var q := p + [b];
    forall i | 0 <= i < |q| - 1
      ensures Edge(g, q[i], q[i + 1])
    {
      if i < |p| - 1 {
        assert Edge(g, p[i], p[i + 1]);
      }
    }
  }

  lemma ReachedStep(w: World, c: Path, t: Path)
    requires Reached(w, c) && t in AcceptedAt(w, c) && t in w.files
    ensures Reached(w, t)
  {
    var g := AcceptedGraph(w);
    var a :| Aggregate(w, a) && (a == c || Reaches(g, a, c));
    assert Edge(g, c, t);
    var p := [c];
    if a != c {
      p :| |p| >= 2 && WalkFromTo(g, p, a, c);
    }
    ExtendWalk(g, p, t);
    assert WalkFromTo(g, p + [t], a, t);
  }

  // ----- the worklist's invariants

  ghost predicate Frontier(w: World, visited: set<Path>, pending: seq<Path>) {
    && (forall c | c in visited :: Reached(w, c) && !Broken(w, c))
    && (forall t | t in pending && t in w.files :: Reached(w, t))
    && (forall a | Aggregate(w, a) && a in w.files :: a in visited || a in pending)
    && (forall c | c in visited :: Followed(w, visited, pending, c))
  }

  /** Every accepted reference of the config is done or to do. */
  ghost predicate Followed(w: World, visited: set<Path>, pending: seq<Path>, c: Path) {
    c in w.files && forall t | t in AcceptedAt(w, c) && t in w.files :: t in visited || t in pending
  }

  /** Each visited config has contributed its violations once, in whatever order. */
  ghost predicate Tally(w: World, visited: set<Path>, violations: seq<Violation>) {
    forall v: Violation :: multiset(violations)[v] == if v.config in visited
      then multiset(ViolationsAt(w, v.config))[v] else 0
  }

  lemma PendingMembers(pending: seq<Path>)
    requires pending != []
    ensures forall t :: t in pending <==> t in pending[..|pending| - 1] || t == pending[|pending| - 1]
  {
    assert pending == pending[..|pending| - 1] + [pending[|pending| - 1]];
  }

  lemma FrontierSkips(w: World, visited: set<Path>, pending: seq<Path>)
    requires Frontier(w, visited, pending) && pending != []
    requires pending[|pending| - 1] in visited || pending[|pending| - 1] !in w.files
    ensures Frontier(w, visited, pending[..|pending| - 1])
  {
    PendingMembers(pending);
    forall c | c in visited
      ensures Followed(w, visited, pending[..|pending| - 1], c)
    {
      assert Followed(w, visited, pending, c);
    }
  }

  lemma FrontierVisits(w: World, visited: set<Path>, pending: seq<Path>, c: Path)
    requires Frontier(w, visited, pending) && pending != [] && c == pending[|pending| - 1]
    requires c in w.files && !Broken(w, c)
    ensures Frontier(w, visited + {c}, pending[..|pending| - 1] + AcceptedAt(w, c))
  {
    PendingMembers(pending);
    var visited', pending' := visited + {c}, pending[..|pending| - 1] + AcceptedAt(w, c);
    assert c in pending;
    forall d | d in visited'
      ensures Followed(w, visited', pending', d)
    {
      if d != c {
        assert Followed(w, visited, pending, d);
      }
    }
    forall t | t in AcceptedAt(w, c) && t in w.files
      ensures Reached(w, t)
    {
      ReachedStep(w, c, t);
    }
  }

  lemma {:induction false} ViolationsNameTheirConfig(w: World, c: Path, face: Option<ReferenceFaces.Face>,
                                                     refs: seq<Reference>, v: Violation)
    requires v in Violations(w, c, face, refs)
    ensures v.config == c
  {
    var front := Violations(w, c, face, refs[..|refs| - 1]);
    if v in front {
      ViolationsNameTheirConfig(w, c, face, refs[..|refs| - 1], v);
    }
  }

  lemma TallyVisits(w: World, visited: set<Path>, violations: seq<Violation>, c: Path)
    requires Tally(w, visited, violations) && c in w.files && c !in visited
    ensures Tally(w, visited + {c}, violations + ViolationsAt(w, c))
  {
    var own := ViolationsAt(w, c);
    forall v: Violation
      ensures multiset(violations + own)[v] == if v.config in visited + {c} then multiset(ViolationsAt(w, v.config))[v]
              else 0
    {
      assert multiset(violations + own)[v] == multiset(violations)[v] + multiset(own)[v];
      if v.config != c && v in multiset(own) {
        ViolationsNameTheirConfig(w, c, Face(w, c), References(w, c), v);
        assert false;
      }
    }
  }

  lemma {:induction false} WalkIsVisited(w: World, visited: set<Path>, p: seq<Path>)
    requires Frontier(w, visited, []) && Walk(AcceptedGraph(w), p) && p[0] in visited && p[|p| - 1] in w.files
    ensures p[|p| - 1] in visited
    decreases |p|
  {
    if |p| > 1 {
      WalkTail(AcceptedGraph(w), p);
      SecondIsFile(w, p);
      EdgeIsVisited(w, visited, p[0], p[1]);
      WalkIsVisited(w, visited, p[1..]);
    }
  }

  lemma SecondIsFile(w: World, p: seq<Path>)
    requires Walk(AcceptedGraph(w), p) && |p| > 1 && p[|p| - 1] in w.files
    ensures p[1] in w.files
  {
    if |p| > 2 {
      assert Edge(AcceptedGraph(w), p[1], p[2]);
    }
  }

  lemma EdgeIsVisited(w: World, visited: set<Path>, c: Path, t: Path)
    requires Frontier(w, visited, []) && Edge(AcceptedGraph(w), c, t) && c in visited && t in w.files
    ensures t in visited
  {
    assert Followed(w, visited, [], c);
  }

  lemma AllReachedAreVisited(w: World, visited: set<Path>)
    requires Frontier(w, visited, [])
    ensures forall c :: c in visited <==> Reached(w, c)
  {
    forall c | Reached(w, c)
      ensures c in visited
    {
      var g := AcceptedGraph(w);
      var a :| Aggregate(w, a) && (a == c || Reaches(g, a, c));
      if a != c {
        var p :| |p| >= 2 && WalkFromTo(g, p, a, c);
        WalkTail(g, p);
        WalkIsVisited(w, visited, p);
      }
    }
  }

  // ----- the loop

  /** How often a violation is reported: as often as its config's references commit it, if the config is reached. */
  ghost function Multiplicity(w: World, v: Violation): nat {
    if Reached(w, v.config) then multiset(ViolationsAt(w, v.config))[v] else 0
  }

  ghost predicate Reports(w: World, violations: seq<Violation>) {
    forall v: Violation :: multiset(violations)[v] == Multiplicity(w, v)
  }

  ghost predicate StopsAt(w: World, error: Path) {
    exists c :: Reached(w, c) && ProjectFace(w, c, {}) == Failure(error)
  }

  /** Judges the references of one config: violations are recorded, accepted targets go on the worklist. */
  method VisitReferences(w: World, c: Path, face: Option<ReferenceFaces.Face>, refs: seq<Reference>,
                         violations: seq<Violation>, pending: seq<Path>)
    returns (violations': seq<Violation>, pending': seq<Path>)
    ensures violations' == violations + Violations(w, c, face, refs)
    ensures pending' == pending + Accepted(w, c, face, refs)
  {
    violations', pending' := violations, pending;
    var roots := SplitRoots(w);
    for i := 0 to |refs|
      invariant violations' == violations + Violations(w, c, face, refs[..i])
      invariant pending' == pending + Accepted(w, c, face, refs[..i])
    {
      assert refs[..i + 1][..i] == refs[..i] && refs[..i + 1][i] == refs[i];
      var verdict := Judge(w, roots, c, face, refs[i]);
      if verdict.Some? {
        violations' := violations' + [verdict.value];
      } else {
        pending' := pending' + [refs[i].target];
      }
    }
    assert refs[..|refs|] == refs;
  }

  /**
   `collectProjectReferenceFaceViolations`. `position` is the place of a diagnostic's text in
   string order. The diagnostics are sorted, and each is there exactly as often as the references
   of its config commit it; the run stops exactly when a reached config cannot be judged.
   */
  method CollectViolations(w: World, position: Violation -> int) returns (r: Result<seq<Violation>, Path>)
    ensures r.Success? <==> forall c | Reached(w, c) :: !Broken(w, c)
    ensures r.Success? ==> Reports(w, r.value) && Sorting.Ascending(position, r.value)
    ensures r.Failure? ==> StopsAt(w, r.error)
  {
    var violations: seq<Violation> := [];
    var pending := [FaceConfig(w.root, Host), FaceConfig(w.root, Client)];
    var visited: set<Path> := {};
    InitialFrontier(w);
    while pending != []
      invariant visited <= w.files.Keys && Frontier(w, visited, pending) && Tally(w, visited, violations)
      decreases w.files.Keys - visited, |pending|
    {
      var config := pending[|pending| - 1];
      if config in visited || config !in w.files {
        FrontierSkips(w, visited, pending);
        pending := pending[..|pending| - 1];
      } else {
        assert config in pending;
        var face := ProjectFace(w, config, {});
        if face.Failure? {
          return Failure(face.error);
        }
        FrontierVisits(w, visited, pending, config);
        TallyVisits(w, visited, violations, config);
        visited := visited + {config};
        violations, pending := VisitReferences(w, config, face.value, References(w, config), violations,
          pending[..|pending| - 1]);
      }
    }
    AllReachedAreVisited(w, visited);
    Sorting.SortSorts(position, violations);
    return Success(Sorting.SortBy(position, violations));
  }

  lemma InitialFrontier(w: World)
    ensures Frontier(w, {}, [FaceConfig(w.root, Host), FaceConfig(w.root, Client)])
    ensures Tally(w, {}, [])
  {
    assert Aggregate(w, FaceConfig(w.root, Host)) && Aggregate(w, FaceConfig(w.root, Client));
  }

  // ----- what is reported

  /** A reference of a reached config that enters the wrong face. */
  ghost predicate WrongReference(w: World, v: Violation, r: Reference) {
    Reached(w, v.config) && r in References(w, v.config)
    && Judge(w, SplitRoots(w), v.config, Face(w, v.config), r) == Some(v)
  }

  lemma {:induction false} ViolationsAreJudged(w: World, c: Path, face: Option<ReferenceFaces.Face>,
                                               refs: seq<Reference>, v: Violation)
    ensures v in Violations(w, c, face, refs)
            <==> exists r :: r in refs && Judge(w, SplitRoots(w), c, face, r) == Some(v)
  {
    if refs != [] {
      var front, last := refs[..|refs| - 1], refs[|refs| - 1];
      ViolationsAreJudged(w, c, face, front, v);
      assert refs == front + [last];
      assert last in refs;
    }
  }

  /** The reported violations are exactly the wrong references that leave reached configs. */
  lemma ReportedIff(w: World, violations: seq<Violation>, v: Violation)
    requires Reports(w, violations)
    ensures v in violations <==> exists r :: WrongReference(w, v, r)
  {
    assert v in violations <==> multiset(violations)[v] > 0;
    assert v in ViolationsAt(w, v.config) <==> multiset(ViolationsAt(w, v.config))[v] > 0;
    if Reached(w, v.config) {
      ViolationsAreJudged(w, v.config, Face(w, v.config), References(w, v.config), v);
      if v in violations {
        var r :| r in References(w, v.config) && Judge(w, SplitRoots(w), v.config, Face(w, v.config), r) == Some(v);
        assert WrongReference(w, v, r);
      }
    }
  }

  /** No order of the worklist shows in the result: the report is determined by the repository. */
  lemma ReportIsUnique(w: World, position: Violation -> int, a: seq<Violation>, b: seq<Violation>)
    requires Reports(w, a) && Reports(w, b) && Sorting.Ascending(position, a) && Sorting.Ascending(position, b)
    requires Sorting.TellsApart(position)
    ensures a == b
  {
    assert multiset(a) == multiset(b);
    Sorting.SortedIsUnique(position, a, b);
  }
}
