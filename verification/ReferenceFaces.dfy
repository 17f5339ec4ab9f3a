/**
 Which compiler face may reference which: from the two aggregate configs the references are
 followed, and every reference that enters a split project must name the leaf of its own face.
 */
module ReferenceFaces {
  import opened Wrappers
  import Sorting

  datatype Segment = Segment(text: string)

  /** An absolute path. */
  type Path = seq<Segment>

  datatype Face = Host | Client

  /** A reference as written, and the config file it resolves to. */
  datatype Reference = Reference(spelling: string, target: Path)

  datatype File = Unreadable | Readable(parent: Option<Path>, references: seq<Reference>)

  datatype World = World(root: Path, files: map<Path, File>, packages: seq<Path>)

  const HOST_CONFIG := Segment("tsconfig.host.json")
  const CLIENT_CONFIG := Segment("tsconfig.client.json")
  const BASE_CONFIG := Segment("tsconfig.base.json")
  const BASE_CLIENT_CONFIG := Segment("tsconfig.base.client.json")

  function FaceConfig(dir: Path, face: Face): Path {
    dir + [if face == Host then HOST_CONFIG else CLIENT_CONFIG]
  }

  // ----- split roots, deepest first

  predicate Contains(dir: Path, p: Path) {
    dir <= p
  }

  /** The length of the path as a string. */
  function PathLength(p: Path): nat {
    if p == [] then 0 else 1 + |p[0].text| + PathLength(p[1..])
  }

  function Depth(p: Path): int {
    -(PathLength(p) as int)
  }

  predicate IsSplit(w: World, dir: Path) {
    FaceConfig(dir, Host) in w.files && FaceConfig(dir, Client) in w.files
  }

  function SplitDirs(w: World, packages: seq<Path>): seq<Path> {
    if packages == [] then []
    else (if IsSplit(w, packages[0]) then [packages[0]] else []) + SplitDirs(w, packages[1..])
  }

  /** `splitProjectRoots`. */
  function SplitRoots(w: World): seq<Path> {
    Sorting.SortBy(Depth, SplitDirs(w, w.packages))
  }

  /** `containingSplitRoot`: the first one found. */
  function ContainingSplitRoot(roots: seq<Path>, target: Path): Option<Path> {
    if roots == [] then None
    else if Contains(roots[0], target) then Some(roots[0])
    else ContainingSplitRoot(roots[1..], target)
  }

  lemma {:induction false} SplitDirsAre(w: World, packages: seq<Path>)
    ensures forall d :: d in SplitDirs(w, packages) <==> d in packages && IsSplit(w, d)
  {
    if packages != [] {
      SplitDirsAre(w, packages[1..]);
      assert packages == [packages[0]] + packages[1..];
    }
  }

  lemma SplitRootsAre(w: World)
    ensures forall d :: d in SplitRoots(w) <==> d in w.packages && IsSplit(w, d)
    ensures Sorting.Ascending(Depth, SplitRoots(w))
  {
    SplitDirsAre(w, w.packages);
    Sorting.SortSorts(Depth, SplitDirs(w, w.packages));
    forall d
      ensures d in SplitRoots(w) <==> d in SplitDirs(w, w.packages)
    {
      Sorting.MembersOfEqual(SplitRoots(w), SplitDirs(w, w.packages), d);
    }
  }

  lemma {:induction false} LengthAppend(a: Path, b: Path)
    ensures PathLength(a + b) == PathLength(a) + PathLength(b)
  {
    if a == [] {
      assert a + b == b;
    } else {
      assert (a + b)[1..] == a[1..] + b;
      LengthAppend(a[1..], b);
    }
  }

  /** Of two directories containing the same path, the longer one is inside the other. */
  lemma LongerIsDeeper(a: Path, b: Path, target: Path)
    requires Contains(a, target) && Contains(b, target) && PathLength(a) >= PathLength(b)
    ensures Contains(b, a)
  {
    if |a| < |b| {
      assert b == a + b[|a|..];
      LengthAppend(a, b[|a|..]);
    }
  }

  lemma {:induction false} FirstContaining(roots: seq<Path>, target: Path)
    requires Sorting.Ascending(Depth, roots)
    ensures var r := ContainingSplitRoot(roots, target);
            && (r.None? <==> forall d | d in roots :: !Contains(d, target))
            && (r.Some? ==> r.value in roots && Contains(r.value, target)
                            && forall d | d in roots && Contains(d, target) :: Depth(r.value) <= Depth(d))
  {
    if roots != [] {
      FirstContaining(roots[1..], target);
      forall d | d in roots
        ensures Depth(roots[0]) <= Depth(d)
      {
        Sorting.SmallestFirst(Depth, roots, d);
      }
      assert roots == [roots[0]] + roots[1..];
    }
  }

  ghost predicate SplitAround(w: World, dir: Path, target: Path) {
    dir in w.packages && IsSplit(w, dir) && Contains(dir, target)
  }

  /** A target is judged by the deepest split package around it: every other one around it contains that one too. */
  lemma JudgedByDeepest(w: World, target: Path)
    ensures var r := ContainingSplitRoot(SplitRoots(w), target);
            && (r.None? <==> forall d :: !SplitAround(w, d, target))
            && (r.Some? ==> SplitAround(w, r.value, target) && forall d | SplitAround(w, d, target) ::
               Contains(d, r.value))
  {
    SplitRootsAre(w);
    FirstContaining(SplitRoots(w), target);
    var r := ContainingSplitRoot(SplitRoots(w), target);
    forall d | SplitAround(w, d, target)
      ensures r.Some? && Contains(d, r.value)
    {
      assert d in SplitRoots(w) && Contains(d, target);
      LongerIsDeeper(r.value, d, target);
    }
    if r.Some? {
      assert SplitAround(w, r.value, target);
    }
  }

  // ----- `projectFace`

  /** What a config decides on its own: an unreadable one stops the run, a named one has a face. */
  function Verdict(w: World, p: Path): Option<Result<Option<Face>, Path>>
    requires p in w.files
  {
    if w.files[p].Unreadable? then Some(Failure(p))
    else if p != [] && p[|p| - 1] == HOST_CONFIG then Some(Success(Some(Host)))
    else if p != [] && p[|p| - 1] == CLIENT_CONFIG then Some(Success(Some(Client)))
    else if p == w.root + [BASE_CONFIG] then Some(Success(Some(Host)))
    else if p == w.root + [BASE_CLIENT_CONFIG] then Some(Success(Some(Client)))
    else None
  }

  /** The config this one extends, when it is in the repository. */
  function Parent(w: World, p: Path): Option<Path>
    requires p in w.files
  {
    if w.files[p].Readable? && w.files[p].parent.Some? && w.files[p].parent.value in w.files then w.files[p].parent
      else None
  }

  function ProjectFace(w: World, p: Path, seen: set<Path>): Result<Option<Face>, Path>
    requires p in w.files
    decreases w.files.Keys - seen
  {
    if Verdict(w, p).Some? then Verdict(w, p).value
    else if p in seen then Success(None)
    else if Parent(w, p).None? then Success(None)
    else ProjectFace(w, Parent(w, p).value, seen + {p})
  }

  /** The k-th config up the `extends` chain. */
  function Ancestor(w: World, p: Path, k: nat): (a: Option<Path>)
    requires p in w.files
    ensures a.Some? ==> a.value in w.files
    decreases k
  {
    if k == 0 then Some(p)
    else if Parent(w, p).None? then None
    else Ancestor(w, Parent(w, p).value, k - 1)
  }

  /** The first verdict up the chain. */
  ghost predicate FirstVerdict(w: World, p: Path, k: nat, v: Result<Option<Face>, Path>)
    requires p in w.files
  {
    && Ancestor(w, p, k).Some? && Verdict(w, Ancestor(w, p, k).value) == Some(v)
    && forall j: nat | j < k && Ancestor(w, p, j).Some? :: Verdict(w, Ancestor(w, p, j).value).None?
  }

  /** No config up the chain decides anything. */
  ghost predicate Undecided(w: World, p: Path)
    requires p in w.files
  {
    forall k: nat :: Ancestor(w, p, k).Some? ==> Verdict(w, Ancestor(w, p, k).value).None?
  }

  /** Configs already passed decide nothing and lead to each other or on to `p`. */
  ghost predicate PassedBy(w: World, seen: set<Path>, p: Path) {
    forall q | q in seen :: q in w.files && Verdict(w, q).None? && Parent(w, q).Some?
      && (Parent(w, q).value in seen || Parent(w, q).value == p)
  }

  lemma {:induction false} LoopIsUndecided(w: World, seen: set<Path>, p: Path, q: Path, k: nat)
    requires PassedBy(w, seen, p) && p in seen && q in seen && Ancestor(w, q, k).Some?
    ensures Verdict(w, Ancestor(w, q, k).value).None?
    decreases k
  {
    if k > 0 {
      LoopIsUndecided(w, seen, p, Parent(w, q).value, k - 1);
    }
  }

  lemma FirstVerdictStep(w: World, p: Path, k: nat, v: Result<Option<Face>, Path>)
    requires p in w.files && Verdict(w, p).None? && Parent(w, p).Some? && FirstVerdict(w, Parent(w, p).value, k, v)
    ensures FirstVerdict(w, p, k + 1, v)
  {
    forall j: nat | j < k + 1 && Ancestor(w, p, j).Some?
      ensures Verdict(w, Ancestor(w, p, j).value).None?
    {
      if j > 0 {
        assert Ancestor(w, p, j) == Ancestor(w, Parent(w, p).value, j - 1);
      }
    }
  }

  lemma UndecidedStep(w: World, p: Path)
    requires p in w.files && Verdict(w, p).None? && Parent(w, p).Some? && Undecided(w, Parent(w, p).value)
    ensures Undecided(w, p)
  {
    forall k: nat | Ancestor(w, p, k).Some?
      ensures Verdict(w, Ancestor(w, p, k).value).None?
    {
      if k > 0 {
        assert Ancestor(w, p, k) == Ancestor(w, Parent(w, p).value, k - 1);
      }
    }
  }

  ghost predicate HasFirstVerdict(w: World, p: Path, v: Result<Option<Face>, Path>)
    requires p in w.files
  {
    exists k: nat :: FirstVerdict(w, p, k, v)
  }

  lemma {:induction false} FaceFrom(w: World, p: Path, seen: set<Path>)
    requires p in w.files && PassedBy(w, seen, p)
    ensures var v := ProjectFace(w, p, seen); HasFirstVerdict(w, p, v) || (v == Success(None) && Undecided(w, p))
    decreases w.files.Keys - seen
  {
    if Verdict(w, p).Some? {
      assert FirstVerdict(w, p, 0, ProjectFace(w, p, seen));
    } else if p in seen {
      forall k: nat | Ancestor(w, p, k).Some?
        ensures Verdict(w, Ancestor(w, p, k).value).None?
      {
        LoopIsUndecided(w, seen, p, p, k);
      }
    } else if Parent(w, p).None? {
      assert forall k: nat :: k > 0 ==> Ancestor(w, p, k).None?;
    } else {
      var next := Parent(w, p).value;
      FaceFrom(w, next, seen + {p});
      if HasFirstVerdict(w, next, ProjectFace(w, next, seen + {p})) {
        var k: nat :| FirstVerdict(w, next, k, ProjectFace(w, next, seen + {p}));
        FirstVerdictStep(w, p, k, ProjectFace(w, next, seen + {p}));
      } else {
        UndecidedStep(w, p);
      }
    }
  }

  /**
   A config's face is the first decision up its `extends` chain, and none when a chain, cyclic or not, never
   decides.
   */
  lemma FaceIsFirstVerdict(w: World, p: Path)
    requires p in w.files
    ensures var v := ProjectFace(w, p, {}); HasFirstVerdict(w, p, v) || (v == Success(None) && Undecided(w, p))
  {
    FaceFrom(w, p, {});
  }

  // ----- judging one reference

  datatype Violation = NoFace(config: Path, spelling: string, splitRoot: Path)
                     | WrongFace(config: Path, spelling: string, splitRoot: Path, expected: Path)

  function Judge(w: World, roots: seq<Path>, config: Path, face: Option<Face>, r: Reference): Option<Violation> {
    var splitRoot := ContainingSplitRoot(roots, r.target);
    if splitRoot.None? then None
    else if face.None? then Some(NoFace(config, r.spelling, splitRoot.value))
    else if r.target != FaceConfig(splitRoot.value, face.value) then
      Some(WrongFace(config, r.spelling, splitRoot.value, FaceConfig(splitRoot.value, face.value)))
    else None
  }

  /** A reference is accepted exactly when it enters no split package, or the right leaf of the deepest one. */
  lemma AcceptedIff(w: World, config: Path, face: Option<Face>, r: Reference)
    ensures Judge(w, SplitRoots(w), config, face, r).None?
            <==> forall d | SplitAround(w, d, r.target) && (forall e | SplitAround(w, e, r.target) :: Contains(e, d)) ::
                   face.Some? && r.target == FaceConfig(d, face.value)
  {
    JudgedByDeepest(w, r.target);
    var splitRoot := ContainingSplitRoot(SplitRoots(w), r.target);
    if splitRoot.Some? {
      forall d | SplitAround(w, d, r.target) && (forall e | SplitAround(w, e, r.target) :: Contains(e, d))
        ensures d == splitRoot.value
      {
        assert Contains(d, splitRoot.value) && Contains(splitRoot.value, d);
      }
    }
  }
}
