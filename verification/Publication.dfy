/**
 Publishing a release bundle to a registry that keeps whatever an interrupted run has
 already written. A run is a list of atomic actions, each a query and at most one write.
 */
module Publication {
  import opened Wrappers

  datatype Name = Name(text: string)
  datatype Version = Version(text: string)
  datatype Tag = Tag(text: string)
  datatype Integrity = Integrity(sha512: string)

  datatype PackedPackage = PackedPackage(name: Name, integrity: Integrity)

  datatype Bundle = Bundle(version: Version, distTag: Tag, packages: seq<PackedPackage>)

  datatype Registry = Registry(versions: map<(Name, Version), Integrity>, tags: map<(Name, Tag), Version>)

  const RELEASE_ENTRY_PACKAGE := Name("@aflydream/mnh")
  const LATEST_DIST_TAG := Tag("latest")

  /** What loading a release manifest guarantees. */
  ghost predicate WellFormed(b: Bundle) {
    b.packages != [] && forall i, j | 0 <= i < j < |b.packages| :: b.packages[i].name != b.packages[j].name
  }

  datatype Action = PublishOrCheck(pkg: PackedPackage) | EnsureDistTag(name: Name, tag: Tag)

  datatype PublishError = DifferentIntegrity(name: Name) | NoSuchVersion(name: Name)

  /** The registry after one action, and what it threw. */
  datatype Progress = Progress(reg: Registry, error: Option<PublishError>)

  /** Whether the action issues a write: a publish of a missing version, or moving a tag that points elsewhere. */
  predicate Writes(b: Bundle, reg: Registry, a: Action) {
    match a
    case PublishOrCheck(pkg) => (pkg.name, b.version) !in reg.versions
    case EnsureDistTag(name, tag) => !((name, tag) in reg.tags && reg.tags[(name, tag)] == b.version)
  }

  function Do(b: Bundle, reg: Registry, a: Action): Progress {
    match a
    case PublishOrCheck(pkg) =>
      if Writes(b, reg, a) then
        Progress(Registry(reg.versions[(pkg.name, b.version) := pkg.integrity],
                          reg.tags[(pkg.name, b.distTag) := b.version]), None)
      else if reg.versions[(pkg.name, b.version)] != pkg.integrity then
        Progress(reg, Some(DifferentIntegrity(pkg.name)))
      else Progress(reg, None)
    case EnsureDistTag(name, tag) =>
      if !Writes(b, reg, a) then Progress(reg, None)
      else if (name, b.version) !in reg.versions then Progress(reg, Some(NoSuchVersion(name)))
      else Progress(reg.(tags := reg.tags[(name, tag) := b.version]), None)
  }

  function PackageActions(b: Bundle, packages: seq<PackedPackage>): seq<Action> {
    if packages == [] then []
    else [PublishOrCheck(packages[0]), EnsureDistTag(packages[0].name, b.distTag)] + PackageActions(b, packages[1..])
  }

  /** One whole run: every package with its tag, then the entry package's `latest`. */
  function Actions(b: Bundle): seq<Action> {
    PackageActions(b, b.packages) + [EnsureDistTag(RELEASE_ENTRY_PACKAGE, LATEST_DIST_TAG)]
  }

  /** A run of actions stops at the first throw. */
  function Run(b: Bundle, reg: Registry, actions: seq<Action>): Progress
    decreases |actions|
  {
    if actions == [] then Progress(reg, None)
    else
      var first := Do(b, reg, actions[0]);
      if first.error.Some? then first else Run(b, first.reg, actions[1..])
  }

  function CountWrites(b: Bundle, reg: Registry, actions: seq<Action>): nat
    decreases |actions|
  {
    if actions == [] then 0
    else
      var first := Do(b, reg, actions[0]);
      (if Writes(b, reg, actions[0]) && first.error.None? then 1 else 0)
      + if first.error.Some? then 0 else CountWrites(b, first.reg, actions[1..])
  }

  /** One write is counted for each action that changes the registry, and for no other. */
  lemma {:induction false} WritesAreChanges(b: Bundle, reg: Registry, actions: seq<Action>, i: nat)
    requires i < |actions|
    ensures var before, after := Run(b, reg, actions[..i]).reg, Run(b, reg, actions[..i + 1]).reg;
            && CountWrites(b, reg, []) == 0
            && CountWrites(b, reg, actions[..i + 1])
               == CountWrites(b, reg, actions[..i]) + (if before == after then 0 else 1)
    decreases i
  {
    var first := Do(b, reg, actions[0]);
    assert actions[..i + 1][0] == actions[0] && actions[..i + 1][1..] == actions[1..][..i];
    WriteIsChange(b, reg, actions[0]);
    if i > 0 {
      assert actions[..i][0] == actions[0] && actions[..i][1..] == actions[1..][..i - 1];
      WritesAreChanges(b, first.reg, actions[1..], i - 1);
    }
  }

  lemma WriteIsChange(b: Bundle, reg: Registry, a: Action)
    ensures Do(b, reg, a).reg != reg <==> Writes(b, reg, a) && Do(b, reg, a).error.None?
  {
    if a.PublishOrCheck? && Writes(b, reg, a) {
      assert (a.pkg.name, b.version) in Do(b, reg, a).reg.versions;
    } else if a.EnsureDistTag? && Writes(b, reg, a) && Do(b, reg, a).error.None? {
      assert Do(b, reg, a).reg.tags[(a.name, a.tag)] == b.version;
    }
  }

  // ----- what any run, interrupted or failing, can have done

  ghost predicate InBundle(b: Bundle, name: Name) {
    exists pkg :: pkg in b.packages && pkg.name == name
  }

  /** The tags a run may move. */
  ghost predicate BundleTag(b: Bundle, key: (Name, Tag)) {
    (InBundle(b, key.0) && key.1 == b.distTag) || key == (RELEASE_ENTRY_PACKAGE, LATEST_DIST_TAG)
  }

  /**
   Existing versions keep their integrity; only bundle versions are added, and only bundle tags move to this
   version.
   */
  ghost predicate OnlyBundleWritten(b: Bundle, before: Registry, after: Registry) {
    && (forall k | k in before.versions :: k in after.versions && after.versions[k] == before.versions[k])
    && (forall k | k in after.versions && k !in before.versions ::
          k.1 == b.version && PackedPackage(k.0, after.versions[k]) in b.packages)
    && (forall k | k in before.tags :: k in after.tags)
    && (forall k | k in after.tags && !(k in before.tags && before.tags[k] == after.tags[k]) ::
          BundleTag(b, k) && after.tags[k] == b.version)
  }

  ghost predicate OfBundle(b: Bundle, a: Action) {
    match a
    case PublishOrCheck(pkg) => pkg in b.packages
    case EnsureDistTag(name, tag) => BundleTag(b, (name, tag))
  }

  lemma {:induction false} PackageActionsOfBundle(b: Bundle, packages: seq<PackedPackage>)
    requires forall pkg | pkg in packages :: pkg in b.packages
    ensures forall a | a in PackageActions(b, packages) :: OfBundle(b, a)
  {
    if packages != [] {
      assert packages[0] in packages && InBundle(b, packages[0].name);
      PackageActionsOfBundle(b, packages[1..]);
    }
  }

  lemma ActionsOfBundle(b: Bundle)
    ensures forall a | a in Actions(b) :: OfBundle(b, a)
  {
    PackageActionsOfBundle(b, b.packages);
  }

  lemma DoWritesOnlyBundle(b: Bundle, before: Registry, reg: Registry, a: Action)
    requires OnlyBundleWritten(b, before, reg) && OfBundle(b, a)
    ensures OnlyBundleWritten(b, before, Do(b, reg, a).reg)
  {
    if a.PublishOrCheck? {
      assert a.pkg == PackedPackage(a.pkg.name, a.pkg.integrity);
      assert InBundle(b, a.pkg.name);
    }
  }

  /** The frame of every run: whatever prefix was executed, and whether or not it threw. */
  lemma {:induction false} RunWritesOnlyBundle(b: Bundle, before: Registry, reg: Registry, actions: seq<Action>)
    requires OnlyBundleWritten(b, before, reg) && forall a | a in actions :: OfBundle(b, a)
    ensures OnlyBundleWritten(b, before, Run(b, reg, actions).reg)
    decreases |actions|
  {
    if actions != [] {
      DoWritesOnlyBundle(b, before, reg, actions[0]);
      RunWritesOnlyBundle(b, before, Do(b, reg, actions[0]).reg, actions[1..]);
    }
  }

  // ----- success and its final state

  /** No version of the bundle is already there with other contents. */
  ghost predicate NoConflict(b: Bundle, reg: Registry) {
    ConflictFree(b, reg, b.packages)
  }

  ghost predicate ConflictFree(b: Bundle, reg: Registry, packages: seq<PackedPackage>) {
    forall pkg | pkg in packages && (pkg.name, b.version) in reg.versions ::
      reg.versions[(pkg.name, b.version)] == pkg.integrity
  }

  /** The final tag can be set: the entry package is in the bundle, or this version of it is already there. */
  ghost predicate EntryAvailable(b: Bundle, reg: Registry) {
    InBundle(b, RELEASE_ENTRY_PACKAGE) || (RELEASE_ENTRY_PACKAGE, b.version) in reg.versions
    || ((RELEASE_ENTRY_PACKAGE, LATEST_DIST_TAG) in reg.tags
       && reg.tags[(RELEASE_ENTRY_PACKAGE, LATEST_DIST_TAG)] == b.version)
  }

  /** `verifyRemote` and `verifyReleaseEntryDistTag` find nothing wrong. */
  predicate Verified(b: Bundle, reg: Registry) {
    && (forall pkg | pkg in b.packages :: PackageVerified(b, reg, pkg))
    && TagSet(b, reg, RELEASE_ENTRY_PACKAGE, LATEST_DIST_TAG)
  }

  /** In so many words: each package at its integrity and tag, and `latest` of the entry package, at this version. */
  lemma VerifiedMeans(b: Bundle, reg: Registry)
    ensures Verified(b, reg)
            <==> && (forall pkg | pkg in b.packages ::
                       && (pkg.name, b.version) in reg.versions && reg.versions[(pkg.name, b.version)] == pkg.integrity
                       && (pkg.name, b.distTag) in reg.tags && reg.tags[(pkg.name, b.distTag)] == b.version)
                 && (Name("@aflydream/mnh"), Tag("latest")) in reg.tags
                 && reg.tags[(Name("@aflydream/mnh"), Tag("latest"))] == b.version
  {
  }

  predicate TagSet(b: Bundle, reg: Registry, name: Name, tag: Tag) {
    (name, tag) in reg.tags && reg.tags[(name, tag)] == b.version
  }

  predicate PackageVerified(b: Bundle, reg: Registry, pkg: PackedPackage) {
    && (pkg.name, b.version) in reg.versions && reg.versions[(pkg.name, b.version)] == pkg.integrity
    && TagSet(b, reg, pkg.name, b.distTag)
  }

  lemma DoKeepsVerified(b: Bundle, reg: Registry, a: Action, pkg: PackedPackage)
    requires PackageVerified(b, reg, pkg)
    ensures PackageVerified(b, Do(b, reg, a).reg, pkg)
  {
  }

  lemma {:induction false} RunKeepsVerified(b: Bundle, reg: Registry, actions: seq<Action>, pkg: PackedPackage)
    requires PackageVerified(b, reg, pkg)
    ensures PackageVerified(b, Run(b, reg, actions).reg, pkg)
    decreases |actions|
  {
    if actions != [] {
      DoKeepsVerified(b, reg, actions[0], pkg);
      RunKeepsVerified(b, Do(b, reg, actions[0]).reg, actions[1..], pkg);
    }
  }

  lemma {:induction false} RunAppend(b: Bundle, reg: Registry, first: seq<Action>, second: seq<Action>)
    ensures Run(b, reg, first + second)
         == if Run(b, reg, first).error.Some? then Run(b, reg, first) else Run(b, Run(b, reg, first).reg, second)
    decreases |first|
  {
    if first == [] {
      assert first + second == second;
    } else {
      assert (first + second)[1..] == first[1..] + second;
      RunAppend(b, Do(b, reg, first[0]).reg, first[1..], second);
    }
  }

  /** Distinct names: a package's own action leaves the other packages' conflicts alone. */
  lemma PackagesStayFree(b: Bundle, reg: Registry, packages: seq<PackedPackage>)
    requires packages != [] && forall i, j | 0 <= i < j < |packages| :: packages[i].name != packages[j].name
    requires ConflictFree(b, reg, packages)
    ensures var pkg := packages[0];
            var next := Run(b, reg, [PublishOrCheck(pkg), EnsureDistTag(pkg.name, b.distTag)]);
            next.error.None? && PackageVerified(b, next.reg, pkg) && ConflictFree(b, next.reg, packages[1..])
  {
    var pkg := packages[0];
    TwoActions(b, reg, pkg);
    assert pkg in packages;
    var next := Run(b, reg, [PublishOrCheck(pkg), EnsureDistTag(pkg.name, b.distTag)]).reg;
    forall other | other in packages[1..] && (other.name, b.version) in next.versions
      ensures next.versions[(other.name, b.version)] == other.integrity
    {
      var i :| 0 <= i < |packages[1..]| && packages[1..][i] == other;
      assert packages[0].name != packages[i + 1].name;
      assert other in packages;
    }
  }

  /** What a package's two actions do. */
  lemma TwoActions(b: Bundle, reg: Registry, pkg: PackedPackage)
    ensures var next := Run(b, reg, [PublishOrCheck(pkg), EnsureDistTag(pkg.name, b.distTag)]);
            var k := (pkg.name, b.version);
            && (next.error.Some? <==> k in reg.versions && reg.versions[k] != pkg.integrity)
            && (next.error.Some? ==> next.reg == reg)
            && (next.error.None?
               ==> next.reg.versions == reg.versions[k := pkg.integrity] && PackageVerified(b, next.reg, pkg))
  {
    var first := Do(b, reg, PublishOrCheck(pkg));
    var both := [PublishOrCheck(pkg), EnsureDistTag(pkg.name, b.distTag)];
    assert both[1..] == [EnsureDistTag(pkg.name, b.distTag)];
    if first.error.None? {
      assert Run(b, first.reg, both[1..]) == Do(b, first.reg, both[1]) by {
        assert both[1..][1..] == [];
      }
      assert reg.versions[(pkg.name, b.version) := pkg.integrity] == first.reg.versions;
    }
  }

  lemma {:induction false} PackagesRun(b: Bundle, reg: Registry, packages: seq<PackedPackage>)
    requires (forall i, j | 0 <= i < j < |packages| :: packages[i].name != packages[j].name)
             && ConflictFree(b, reg, packages)
    ensures var end := Run(b, reg, PackageActions(b, packages));
            end.error.None? && forall pkg | pkg in packages :: PackageVerified(b, end.reg, pkg)
    decreases |packages|
  {
    if packages != [] {
      var pkg := packages[0];
      var two := [PublishOrCheck(pkg), EnsureDistTag(pkg.name, b.distTag)];
      PackagesStayFree(b, reg, packages);
      RunAppend(b, reg, two, PackageActions(b, packages[1..]));
      var next := Run(b, reg, two).reg;
      PackagesRun(b, next, packages[1..]);
      RunKeepsVerified(b, next, PackageActions(b, packages[1..]), pkg);
    }
  }

  /** Without conflicts a complete run succeeds, and what it leaves behind passes verification. */
  lemma CompleteRunSucceeds(b: Bundle, reg: Registry)
    requires WellFormed(b) && NoConflict(b, reg) && EntryAvailable(b, reg)
    ensures Run(b, reg, Actions(b)).error.None? && Verified(b, Run(b, reg, Actions(b)).reg)
  {
    var last := EnsureDistTag(RELEASE_ENTRY_PACKAGE, LATEST_DIST_TAG);
    PackagesRun(b, reg, b.packages);
    var mid := Run(b, reg, PackageActions(b, b.packages)).reg;
    RunAppend(b, reg, PackageActions(b, b.packages), [last]);
    assert Run(b, mid, [last]) == Do(b, mid, last) by {
      assert [last][1..] == [];
    }
    PackageActionsOfBundle(b, b.packages);
    RunWritesOnlyBundle(b, reg, reg, PackageActions(b, b.packages));
    EntryStaysAvailable(b, reg, mid);
    LastTagVerifies(b, mid);
  }

  lemma LastTagVerifies(b: Bundle, mid: Registry)
    requires forall pkg | pkg in b.packages :: PackageVerified(b, mid, pkg)
    requires TagSet(b, mid, RELEASE_ENTRY_PACKAGE, LATEST_DIST_TAG)
             || (RELEASE_ENTRY_PACKAGE, b.version) in mid.versions
    ensures var end := Do(b, mid, EnsureDistTag(RELEASE_ENTRY_PACKAGE, LATEST_DIST_TAG));
            end.error.None? && Verified(b, end.reg)
  {
    var last := EnsureDistTag(RELEASE_ENTRY_PACKAGE, LATEST_DIST_TAG);
    forall pkg | pkg in b.packages
      ensures PackageVerified(b, Do(b, mid, last).reg, pkg)
    {
      DoKeepsVerified(b, mid, last, pkg);
    }
  }

  lemma EntryStaysAvailable(b: Bundle, reg: Registry, mid: Registry)
    requires OnlyBundleWritten(b, reg, mid) && EntryAvailable(b, reg) && forall pkg | pkg in b.packages ::
             PackageVerified(b, mid, pkg)
    ensures TagSet(b, mid, RELEASE_ENTRY_PACKAGE, LATEST_DIST_TAG) || (RELEASE_ENTRY_PACKAGE, b.version) in mid.versions
  {
    if InBundle(b, RELEASE_ENTRY_PACKAGE) {
      var pkg :| pkg in b.packages && pkg.name == RELEASE_ENTRY_PACKAGE;
      assert PackageVerified(b, mid, pkg);
    }
  }

  /** A verified registry is left alone: a further run issues no write. */
  lemma {:induction false} VerifiedRunWritesNothing(b: Bundle, reg: Registry, actions: seq<Action>)
    requires Verified(b, reg) && forall a | a in actions :: OfBundle(b, a)
    ensures Run(b, reg, actions) == Progress(reg, None) && CountWrites(b, reg, actions) == 0
    decreases |actions|
  {
    if actions != [] {
      var a := actions[0];
      assert OfBundle(b, a);
      if a.EnsureDistTag? && (a.name, a.tag) != (RELEASE_ENTRY_PACKAGE, LATEST_DIST_TAG) {
        var pkg :| pkg in b.packages && pkg.name == a.name;
        assert PackageVerified(b, reg, pkg);
      } else if a.PublishOrCheck? {
        assert PackageVerified(b, reg, a.pkg);
      }
      assert Do(b, reg, a) == Progress(reg, None);
      VerifiedRunWritesNothing(b, reg, actions[1..]);
    }
  }
}
