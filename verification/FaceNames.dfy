/**
 Compiler faces and the report in terms of file names: which config has which face, and
 exactly which references are reported, and how.
 */
module FaceNames {
  import opened Wrappers
  import opened ReferenceFaces
  import opened FaceTraversal

  // ----- how long a path is

  /** A path as it is written, with a slash in front of each segment. */
  ghost function Written(p: Path): string {
    if p == [] then "" else "/" + p[0].text + Written(p[1..])
  }

  lemma {:induction false} LengthAsWritten(p: Path)
    ensures PathLength(p) == |Written(p)|
  {
    if p != [] {
      LengthAsWritten(p[1..]);
    }
  }

  // ----- which config has which face

  /** The four names that give a config a face of its own. */
  ghost predicate NamedFor(w: World, p: Path, face: ReferenceFaces.Face) {
    match face
    case Host =>
      || (p != [] && p[|p| - 1] == Segment("tsconfig.host.json"))
      || p == w.root + [Segment("tsconfig.base.json")]
    case Client =>
      || (p != [] && p[|p| - 1] == Segment("tsconfig.client.json"))
      || p == w.root + [Segment("tsconfig.base.client.json")]
  }

  lemma LastOfAppend(a: Path, s: Segment)
    ensures a + [s] != [] && (a + [s])[|a + [s]| - 1] == s
  {
  }

  /** A readable config of one of the names has its face; an unreadable one stops the run. */
  lemma VerdictByName(w: World, p: Path)
    requires p in w.files
    ensures w.files[p].Unreadable? ==> Verdict(w, p) == Some(Failure(p))
    ensures w.files[p].Readable? && NamedFor(w, p, Host) ==> Verdict(w, p) == Some(Success(Some(Host)))
    ensures w.files[p].Readable? && NamedFor(w, p, Client) ==> Verdict(w, p) == Some(Success(Some(Client)))
    ensures w.files[p].Readable? && !NamedFor(w, p, Host) && !NamedFor(w, p, Client) ==> Verdict(w, p).None?
  {
    LastOfAppend(w.root, Segment("tsconfig.base.json"));
    LastOfAppend(w.root, Segment("tsconfig.base.client.json"));
    NamesDiffer();
  }

  lemma NamesDiffer()
    ensures "tsconfig.host.json" != "tsconfig.client.json"
    ensures "tsconfig.host.json" != "tsconfig.base.json" && "tsconfig.client.json" != "tsconfig.base.json"
    ensures "tsconfig.host.json" != "tsconfig.base.client.json" && "tsconfig.client.json" != "tsconfig.base.client.json"
    ensures "tsconfig.base.json" != "tsconfig.base.client.json"
  {
    assert |"tsconfig.host.json"| == 18 && |"tsconfig.client.json"| == 20;
    assert "tsconfig.host.json"[9] == 'h' && "tsconfig.base.json"[9] == 'b';
    assert |"tsconfig.base.client.json"| == 25;
  }

  /**
   The config `k` steps up the `extends` chain has the face, and those below it are readable and have no such
   name.
   */
  ghost predicate FaceAt(w: World, p: Path, k: nat, face: ReferenceFaces.Face)
    requires p in w.files
  {
    && Ancestor(w, p, k).Some? && w.files[Ancestor(w, p, k).value].Readable?
       && NamedFor(w, Ancestor(w, p, k).value, face)
    && forall j: nat | j < k && Ancestor(w, p, j).Some? :: Nameless(w, Ancestor(w, p, j).value)
  }

  ghost predicate Nameless(w: World, p: Path)
    requires p in w.files
  {
    w.files[p].Readable? && !NamedFor(w, p, Host) && !NamedFor(w, p, Client)
  }

  ghost predicate HasFace(w: World, p: Path, face: ReferenceFaces.Face)
    requires p in w.files
  {
    exists k: nat :: FaceAt(w, p, k, face)
  }

  /** Some config up the chain cannot be read, and none below it has a face. */
  ghost predicate BrokenAt(w: World, p: Path, k: nat)
    requires p in w.files
  {
    && Ancestor(w, p, k).Some? && w.files[Ancestor(w, p, k).value].Unreadable?
    && forall j: nat | j < k && Ancestor(w, p, j).Some? :: Nameless(w, Ancestor(w, p, j).value)
  }

  lemma FirstVerdictIsUnique(w: World, p: Path, k: nat, v: Result<Option<ReferenceFaces.Face>, Path>, m: nat,
                             u: Result<Option<ReferenceFaces.Face>, Path>)
    requires p in w.files && FirstVerdict(w, p, k, v) && FirstVerdict(w, p, m, u)
    ensures k == m && v == u
  {
  }

  /** The verdict found first is the face found first. */
  lemma FirstVerdictIsFace(w: World, p: Path, k: nat)
    requires p in w.files
    ensures FirstVerdict(w, p, k, Success(Some(Host))) <==> FaceAt(w, p, k, Host)
    ensures FirstVerdict(w, p, k, Success(Some(Client))) <==> FaceAt(w, p, k, Client)
    ensures !FirstVerdict(w, p, k, Success(None))
  {
    forall j: nat | Ancestor(w, p, j).Some?
      ensures Verdict(w, Ancestor(w, p, j).value).None? <==> Nameless(w, Ancestor(w, p, j).value)
    {
      VerdictByName(w, Ancestor(w, p, j).value);
    }
    if Ancestor(w, p, k).Some? {
      VerdictByName(w, Ancestor(w, p, k).value);
      NamesExclude(w, Ancestor(w, p, k).value);
    }
  }

  lemma NamesExclude(w: World, p: Path)
    ensures !(NamedFor(w, p, Host) && NamedFor(w, p, Client))
  {
    LastOfAppend(w.root, Segment("tsconfig.base.json"));
    LastOfAppend(w.root, Segment("tsconfig.base.client.json"));
    NamesDiffer();
  }

  /** A config has a face exactly when the first named config up its `extends` chain, itself included, has that name. */
  lemma FaceIff(w: World, p: Path, face: ReferenceFaces.Face)
    requires p in w.files
    ensures ProjectFace(w, p, {}) == Success(Some(face)) <==> HasFace(w, p, face)
  {
    var v := ProjectFace(w, p, {});
    FaceIsFirstVerdict(w, p);
    forall k: nat {
      FirstVerdictIsFace(w, p, k);
    }
    if HasFirstVerdict(w, p, v) {
      var k: nat :| FirstVerdict(w, p, k, v);
      if m: nat :| FaceAt(w, p, m, face) {
        FirstVerdictIsUnique(w, p, k, v, m, Success(Some(face)));
      }
    }
  }

  /** The run stops at a config exactly when one up its chain, itself included, is unreadable before any is named. */
  lemma BrokenIff(w: World, p: Path)
    requires p in w.files
    ensures Broken(w, p) <==> exists k: nat :: BrokenAt(w, p, k)
  {
    var v := ProjectFace(w, p, {});
    FaceIsFirstVerdict(w, p);
    if v.Failure? {
      var k: nat :| FirstVerdict(w, p, k, v);
      FailureIsBroken(w, p, k, v.error);
    }
    if k: nat :| BrokenAt(w, p, k) {
      BrokenIsFailure(w, p, k);
      if HasFirstVerdict(w, p, v) {
        var m: nat :| FirstVerdict(w, p, m, v);
        FirstVerdictIsUnique(w, p, k, Failure(Ancestor(w, p, k).value), m, v);
      }
    }
  }

  lemma FailureIsBroken(w: World, p: Path, k: nat, q: Path)
    requires p in w.files && FirstVerdict(w, p, k, Failure(q))
    ensures BrokenAt(w, p, k)
  {
    forall j: nat | j < k && Ancestor(w, p, j).Some?
      ensures Nameless(w, Ancestor(w, p, j).value)
    {
      VerdictByName(w, Ancestor(w, p, j).value);
    }
    VerdictByName(w, Ancestor(w, p, k).value);
  }

  lemma BrokenIsFailure(w: World, p: Path, k: nat)
    requires p in w.files && BrokenAt(w, p, k)
    ensures FirstVerdict(w, p, k, Failure(Ancestor(w, p, k).value))
  {
    forall j: nat | j < k && Ancestor(w, p, j).Some?
      ensures Verdict(w, Ancestor(w, p, j).value).None?
    {
      VerdictByName(w, Ancestor(w, p, j).value);
    }
    VerdictByName(w, Ancestor(w, p, k).value);
  }

  /** One step up: the config its `extends` names, if the repository has it. */
  lemma ParentIs(w: World, p: Path)
    requires p in w.files && w.files[p].Readable?
    ensures w.files[p].parent.Some? && w.files[p].parent.value in w.files ==> Ancestor(w, p, 1) == w.files[p].parent
    ensures w.files[p].parent.None? || w.files[p].parent.value !in w.files ==> Ancestor(w, p, 1).None?
  {
    if Parent(w, p).Some? {
      assert Ancestor(w, Parent(w, p).value, 0) == Parent(w, p);
    }
  }

  // ----- what is reported

  /** The directory is a package with a config for each face. */
  ghost predicate TwoFaced(w: World, dir: Path) {
    && dir in w.packages
    && dir + [Segment("tsconfig.host.json")] in w.files && dir + [Segment("tsconfig.client.json")] in w.files
  }

  /** Of the two-faced packages around the target, the innermost. */
  ghost predicate Innermost(w: World, dir: Path, target: Path) {
    TwoFaced(w, dir) && dir <= target && forall d | TwoFaced(w, d) && d <= target :: d <= dir
  }

  function LeafName(face: ReferenceFaces.Face): Segment {
    match face
    case Host => Segment("tsconfig.host.json")
    case Client => Segment("tsconfig.client.json")
  }

  /** The reference enters a two-faced package from a config without a face, or not by the leaf of its face. */
  ghost predicate Commits(w: World, r: Reference, v: Violation)
    requires v.config in w.files
  {
    && Innermost(w, v.splitRoot, r.target) && v.spelling == r.spelling
    && match v
       case NoFace(config, _, _) => !HasFace(w, config, Host) && !HasFace(w, config, Client)
       case WrongFace(config, _, dir, expected) =>
         exists face :: HasFace(w, config, face) && expected == dir + [LeafName(face)] && r.target != expected
  }

  lemma InnermostIsFound(w: World, target: Path)
    ensures var d := ContainingSplitRoot(SplitRoots(w), target);
            && (d.Some? ==> Innermost(w, d.value, target))
            && forall dir | Innermost(w, dir, target) :: d == Some(dir)
  {
    JudgedByDeepest(w, target);
    var d := ContainingSplitRoot(SplitRoots(w), target);
    forall dir
      ensures TwoFaced(w, dir) && dir <= target <==> SplitAround(w, dir, target)
    {
    }
    forall dir | Innermost(w, dir, target)
      ensures d == Some(dir)
    {
      assert SplitAround(w, dir, target);
      SamePrefix(dir, d.value);
    }
  }

  lemma SamePrefix(a: Path, b: Path)
    requires a <= b && b <= a
    ensures a == b
  {
  }

  lemma JudgedByName(w: World, config: Path, r: Reference, v: Violation)
    requires config in w.files && !Broken(w, config)
    ensures Judge(w, SplitRoots(w), config, FaceTraversal.Face(w, config), r) == Some(v)
            <==> v.config == config && Commits(w, r, v)
  {
    FaceIff(w, config, Host);
    FaceIff(w, config, Client);
    InnermostIsFound(w, r.target);
  }

  /** The two configs the traversal starts from. */
  lemma AggregatesByName(w: World, c: Path)
    ensures Aggregate(w, c)
            <==> c == w.root + [Segment("tsconfig.host.json")] || c == w.root + [Segment("tsconfig.client.json")]
  {
  }

  /** The report holds a violation exactly when some reference of a reached config commits it. */
  lemma ReportedByName(w: World, violations: seq<Violation>, v: Violation)
    requires Reports(w, violations) && forall c | Reached(w, c) :: !Broken(w, c)
    ensures v in violations
            <==> && Reached(w, v.config) && w.files[v.config].Readable?
                 && exists r :: r in w.files[v.config].references && Commits(w, r, v)
  {
    ReportedIff(w, violations, v);
    if Reached(w, v.config) {
      ReachedIsReadable(w, v.config);
      forall r
        ensures WrongReference(w, v, r) <==> r in w.files[v.config].references && Commits(w, r, v)
      {
        JudgedByName(w, v.config, r, v);
      }
    }
  }

  lemma ReachedIsReadable(w: World, c: Path)
    requires c in w.files && !Broken(w, c)
    ensures w.files[c].Readable?
  {
    VerdictByName(w, c);
  }
}
