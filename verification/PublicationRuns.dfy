/**
 Histories of publication runs: interrupting a run anywhere and running again ends where
 one undisturbed run ends, and the imperative runs do what the action lists say.
 */
module PublicationRuns {
  import opened Wrappers
  import opened Publication

  /** The registry after a history of interrupted runs: the i-th was cut off after `cuts[i]` actions. */
  function Interrupted(b: Bundle, reg: Registry, cuts: seq<nat>): Registry
    decreases |cuts|
  {
    if cuts == [] then reg
    else
      var n := if cuts[0] <= |Actions(b)| then cuts[0] else |Actions(b)|;
      Interrupted(b, Run(b, reg, Actions(b)[..n]).reg, cuts[1..])
  }

  lemma {:induction false} InterruptedWritesOnlyBundle(b: Bundle, before: Registry, reg: Registry, cuts: seq<nat>)
    requires OnlyBundleWritten(b, before, reg)
    ensures OnlyBundleWritten(b, before, Interrupted(b, reg, cuts))
    decreases |cuts|
  {
    if cuts != [] {
      var n := if cuts[0] <= |Actions(b)| then cuts[0] else |Actions(b)|;
      ActionsOfBundle(b);
      forall a | a in Actions(b)[..n]
        ensures OfBundle(b, a)
      {
        assert a in Actions(b);
      }
      RunWritesOnlyBundle(b, before, reg, Actions(b)[..n]);
      InterruptedWritesOnlyBundle(b, before, Run(b, reg, Actions(b)[..n]).reg, cuts[1..]);
    }
  }

  lemma SameName(b: Bundle, p: PackedPackage, q: PackedPackage)
    requires WellFormed(b) && p in b.packages && q in b.packages && p.name == q.name
    ensures p == q
  {
    var i :| 0 <= i < |b.packages| && b.packages[i] == p;
    var j :| 0 <= j < |b.packages| && b.packages[j] == q;
    assert !(i < j) && !(j < i);
  }

  /** Nothing a run can leave behind creates an obstacle for the next one. */
  lemma NoNewObstacles(b: Bundle, before: Registry, after: Registry)
    requires WellFormed(b) && OnlyBundleWritten(b, before, after)
    requires NoConflict(b, before) && EntryAvailable(b, before)
    ensures NoConflict(b, after) && EntryAvailable(b, after)
  {
    forall pkg | pkg in b.packages && (pkg.name, b.version) in after.versions
      ensures after.versions[(pkg.name, b.version)] == pkg.integrity
    {
      var k := (pkg.name, b.version);
      if k !in before.versions {
        SameName(b, pkg, PackedPackage(k.0, after.versions[k]));
      }
    }
  }

  lemma TaggedByVerified(b: Bundle, reg: Registry, key: (Name, Tag))
    requires Verified(b, reg) && BundleTag(b, key)
    ensures key in reg.tags && reg.tags[key] == b.version
  {
    if key != (RELEASE_ENTRY_PACKAGE, LATEST_DIST_TAG) {
      var pkg :| pkg in b.packages && pkg.name == key.0;
      assert PackageVerified(b, reg, pkg);
    }
  }

  lemma SameVersions(b: Bundle, start: Registry, one: Registry, two: Registry)
    requires OnlyBundleWritten(b, start, one) && OnlyBundleWritten(b, start, two) && Verified(b, one)
             && Verified(b, two)
    ensures forall k | k in one.versions :: k in two.versions && one.versions[k] == two.versions[k]
  {
    forall k | k in one.versions
      ensures k in two.versions && one.versions[k] == two.versions[k]
    {
      if k !in start.versions {
        assert PackageVerified(b, two, PackedPackage(k.0, one.versions[k]));
      }
    }
  }

  lemma SameTags(b: Bundle, start: Registry, one: Registry, two: Registry)
    requires OnlyBundleWritten(b, start, one) && OnlyBundleWritten(b, start, two) && Verified(b, one)
             && Verified(b, two)
    ensures forall k | k in one.tags :: k in two.tags && one.tags[k] == two.tags[k]
  {
    forall k | k in one.tags
      ensures k in two.tags && one.tags[k] == two.tags[k]
    {
      if BundleTag(b, k) {
        TaggedByVerified(b, one, k);
        TaggedByVerified(b, two, k);
      } else {
        assert k in start.tags && start.tags[k] == one.tags[k];
      }
    }
  }

  /** What may be written and what verification demands leave only one final registry. */
  lemma VerifiedIsUnique(b: Bundle, start: Registry, one: Registry, two: Registry)
    requires OnlyBundleWritten(b, start, one) && OnlyBundleWritten(b, start, two) && Verified(b, one)
             && Verified(b, two)
    ensures one == two
  {
    SameVersions(b, start, one, two);
    SameVersions(b, start, two, one);
    SameTags(b, start, one, two);
    SameTags(b, start, two, one);
    assert one.versions == two.versions;
    assert one.tags == two.tags;
  }

  /**
   Resumability: after any history of interrupted runs, a complete run succeeds, reaches exactly
   the registry a single undisturbed run reaches, passes verification, and a further run writes nothing.
   */
  lemma ResumedRunReachesTheSameRegistry(b: Bundle, reg: Registry, cuts: seq<nat>)
    requires WellFormed(b) && NoConflict(b, reg) && EntryAvailable(b, reg)
    ensures var end := Run(b, Interrupted(b, reg, cuts), Actions(b));
            && end == Run(b, reg, Actions(b)) && end.error.None? && Verified(b, end.reg)
            && OnlyBundleWritten(b, reg, end.reg)
            && Run(b, end.reg, Actions(b)) == end && CountWrites(b, end.reg, Actions(b)) == 0
  {
    var mid := Interrupted(b, reg, cuts);
    InterruptedWritesOnlyBundle(b, reg, reg, cuts);
    NoNewObstacles(b, reg, mid);
    CompleteRunSucceeds(b, reg);
    CompleteRunSucceeds(b, mid);
    ActionsOfBundle(b);
    RunWritesOnlyBundle(b, reg, reg, Actions(b));
    RunWritesOnlyBundle(b, reg, mid, Actions(b));
    VerifiedIsUnique(b, reg, Run(b, reg, Actions(b)).reg, Run(b, mid, Actions(b)).reg);
    VerifiedRunWritesNothing(b, Run(b, reg, Actions(b)).reg, Actions(b));
  }

  // ----- the exact condition for success

  lemma {:induction false} SuccessMeansNoConflict(b: Bundle, reg: Registry, packages: seq<PackedPackage>)
    requires Run(b, reg, PackageActions(b, packages)).error.None?
    requires forall i, j | 0 <= i < j < |packages| :: packages[i].name != packages[j].name
    ensures ConflictFree(b, reg, packages)
    decreases |packages|
  {
    if packages != [] {
      var pkg := packages[0];
      var two := [PublishOrCheck(pkg), EnsureDistTag(pkg.name, b.distTag)];
      RunAppend(b, reg, two, PackageActions(b, packages[1..]));
      TwoActions(b, reg, pkg);
      SuccessMeansNoConflict(b, Run(b, reg, two).reg, packages[1..]);
      forall other | other in packages && (other.name, b.version) in reg.versions
        ensures reg.versions[(other.name, b.version)] == other.integrity
      {
        var i :| 0 <= i < |packages| && packages[i] == other;
        if i > 0 {
          assert packages[0].name != packages[i].name;
          assert other == packages[1..][i - 1];
        }
      }
    }
  }

  /** What the registry says of one package. */
  ghost predicate SameOf(name: Name, before: Registry, after: Registry) {
    && (forall v: Version :: ((name, v) in before.versions <==> (name, v) in after.versions)
                             && ((name, v) in before.versions
                                ==> before.versions[(name, v)] == after.versions[(name, v)]))
    && (forall t: Tag :: ((name, t) in before.tags <==> (name, t) in after.tags)
                         && ((name, t) in before.tags ==> before.tags[(name, t)] == after.tags[(name, t)]))
  }

  lemma DoLeavesOthers(b: Bundle, reg: Registry, a: Action, name: Name)
    requires match a case PublishOrCheck(pkg) => pkg.name != name case EnsureDistTag(n, _) => n != name
    ensures SameOf(name, reg, Do(b, reg, a).reg)
  {
  }

  lemma RunTwo(b: Bundle, reg: Registry, first: Action, second: Action)
    ensures Run(b, reg, [first, second]) == var p := Do(b, reg, first); if p.error.Some? then p
            else Do(b, p.reg, second)
  {
    assert [first, second][1..] == [second];
    assert [second][1..] == [];
    assert Run(b, Do(b, reg, first).reg, [second]) == Do(b, Do(b, reg, first).reg, second);
  }

  lemma {:induction false} OtherPackagesUntouched(b: Bundle, reg: Registry, packages: seq<PackedPackage>, name: Name)
    requires forall pkg | pkg in packages :: pkg.name != name
    ensures SameOf(name, reg, Run(b, reg, PackageActions(b, packages)).reg)
    decreases |packages|
  {
    if packages != [] {
      var pkg := packages[0];
      assert pkg in packages;
      var two := [PublishOrCheck(pkg), EnsureDistTag(pkg.name, b.distTag)];
      RunAppend(b, reg, two, PackageActions(b, packages[1..]));
      RunTwo(b, reg, two[0], two[1]);
      var next := Run(b, reg, two).reg;
      DoLeavesOthers(b, reg, two[0], name);
      DoLeavesOthers(b, Do(b, reg, two[0]).reg, two[1], name);
      OtherPackagesUntouched(b, next, packages[1..], name);
    }
  }

  /** A run succeeds exactly when no conflicting integrity is present and the entry package is available. */
  lemma RunSucceedsIff(b: Bundle, reg: Registry)
    requires WellFormed(b)
    ensures Run(b, reg, Actions(b)).error.None? <==> NoConflict(b, reg) && EntryAvailable(b, reg)
  {
    var last := EnsureDistTag(RELEASE_ENTRY_PACKAGE, LATEST_DIST_TAG);
    var mid := Run(b, reg, PackageActions(b, b.packages)).reg;
    RunAppend(b, reg, PackageActions(b, b.packages), [last]);
    assert Run(b, mid, [last]) == Do(b, mid, last) by {
      assert [last][1..] == [];
    }
    if Run(b, reg, Actions(b)).error.None? {
      SuccessMeansNoConflict(b, reg, b.packages);
      if !InBundle(b, RELEASE_ENTRY_PACKAGE) {
        OtherPackagesUntouched(b, reg, b.packages, RELEASE_ENTRY_PACKAGE);
        assert SameOf(RELEASE_ENTRY_PACKAGE, reg, mid);
        assert (RELEASE_ENTRY_PACKAGE, LATEST_DIST_TAG) in mid.tags
          ==> (RELEASE_ENTRY_PACKAGE, LATEST_DIST_TAG) in reg.tags;
        assert (RELEASE_ENTRY_PACKAGE, b.version) in mid.versions
          ==> (RELEASE_ENTRY_PACKAGE, b.version) in reg.versions;
      }
    } else if NoConflict(b, reg) && EntryAvailable(b, reg) {
      CompleteRunSucceeds(b, reg);
    }
  }

  // ----- the imperative runs

  datatype PublicationError = Rejected(cause: PublishError) | Missing(name: Name) | IntegrityMismatch(name: Name)
                            | WrongTag(name: Name, tag: Tag)

  class RegistryPublication {
    const bundle: Bundle
    var registry: Registry

    constructor (bundle: Bundle, registry: Registry)
      ensures this.bundle == bundle && this.registry == registry
    {
      this.bundle := bundle;
      this.registry := registry;
    }

    /** Publishes a missing version; accepts one already there only with the same integrity. */
    method PublishPackage(pkg: PackedPackage) returns (error: Option<PublishError>)
      modifies this`registry
      ensures Progress(registry, error) == Do(bundle, old(registry), PublishOrCheck(pkg))
    {
      var key := (pkg.name, bundle.version);
      if key !in registry.versions {
        registry := Registry(registry.versions[key := pkg.integrity],
                             registry.tags[(pkg.name, bundle.distTag) := bundle.version]);
      } else if registry.versions[key] != pkg.integrity {
        return Some(DifferentIntegrity(pkg.name));
      }
      return None;
    }

    method SetDistTag(name: Name, tag: Tag) returns (error: Option<PublishError>)
      modifies this`registry
      ensures Progress(registry, error) == Do(bundle, old(registry), EnsureDistTag(name, tag))
    {
      if (name, tag) in registry.tags && registry.tags[(name, tag)] == bundle.version {
        return None;
      }
      if (name, bundle.version) !in registry.versions {
        return Some(NoSuchVersion(name));
      }
      registry := registry.(tags := registry.tags[(name, tag) := bundle.version]);
      return None;
    }

    /** Everything is in the registry as packed, with both tags; the first thing that is not, otherwise. */
    method Verify() returns (error: Option<PublicationError>)
      ensures error.None? <==> Verified(bundle, registry)
    {
      var i := 0;
      while i < |bundle.packages|
        invariant 0 <= i <= |bundle.packages|
        invariant forall j | 0 <= j < i :: PackageVerified(bundle, registry, bundle.packages[j])
      {
        var pkg := bundle.packages[i];
        assert pkg in bundle.packages;
        var key := (pkg.name, bundle.version);
        if key !in registry.versions {
          return Some(Missing(pkg.name));
        }
        if registry.versions[key] != pkg.integrity {
          return Some(IntegrityMismatch(pkg.name));
        }
        if !TagSet(bundle, registry, pkg.name, bundle.distTag) {
          return Some(WrongTag(pkg.name, bundle.distTag));
        }
        i := i + 1;
      }
      if !TagSet(bundle, registry, RELEASE_ENTRY_PACKAGE, LATEST_DIST_TAG) {
        return Some(WrongTag(RELEASE_ENTRY_PACKAGE, LATEST_DIST_TAG));
      }
      return None;
    }

    /**
     A whole publication. It fails exactly when a version is already there with other contents or the entry
     package is not available; its own closing verification never fails. Whatever happens it writes only
     what it may.
     */
    method Publish() returns (error: Option<PublicationError>)
      requires WellFormed(bundle)
      modifies this`registry
      ensures registry == Run(bundle, old(registry), Actions(bundle)).reg
      ensures error.None? <==> NoConflict(bundle, old(registry)) && EntryAvailable(bundle, old(registry))
      ensures error.Some?
              ==> error.value.Rejected? && Run(bundle, old(registry), Actions(bundle)).error == Some(error.value.cause)
      ensures error.None? ==> Verified(bundle, registry)
      ensures OnlyBundleWritten(bundle, old(registry), registry)
    {
      ghost var start := registry;
      ghost var whole := Run(bundle, start, Actions(bundle));
      RunSucceedsIff(bundle, start);
      ActionsOfBundle(bundle);
      RunWritesOnlyBundle(bundle, start, start, Actions(bundle));
      var i := 0;
      while i < |bundle.packages|
        invariant 0 <= i <= |bundle.packages|
        invariant Run(bundle, registry, RestOf(bundle, i)) == whole
      {
        var pkg := bundle.packages[i];
        RestUnfolds(bundle, registry, i);
        var failed := PublishPackage(pkg);
        if failed.Some? {
          return Some(Rejected(failed.value));
        }
        failed := SetDistTag(pkg.name, bundle.distTag);
        if failed.Some? {
          return Some(Rejected(failed.value));
        }
        i := i + 1;
      }
      RestEnds(bundle, registry);
      var failed := SetDistTag(RELEASE_ENTRY_PACKAGE, LATEST_DIST_TAG);
      if failed.Some? {
        return Some(Rejected(failed.value));
      }
      CompleteRunSucceeds(bundle, start);
      error := Verify();
    }
  }

  /** The actions still to come before the i-th package. */
  ghost function RestOf(b: Bundle, i: nat): seq<Action>
    requires i <= |b.packages|
  {
    PackageActions(b, b.packages[i..]) + [EnsureDistTag(RELEASE_ENTRY_PACKAGE, LATEST_DIST_TAG)]
  }

  lemma RestUnfolds(b: Bundle, reg: Registry, i: nat)
    requires i < |b.packages|
    ensures var pkg := b.packages[i];
            var first := Do(b, reg, PublishOrCheck(pkg));
            var second := Do(b, first.reg, EnsureDistTag(pkg.name, b.distTag));
            Run(b, reg, RestOf(b, i))
            == if first.error.Some? then first else if second.error.Some? then second
              else Run(b, second.reg, RestOf(b, i + 1))
  {
    var pkg := b.packages[i];
    assert b.packages[i..][0] == pkg && b.packages[i..][1..] == b.packages[i + 1..];
    var rest := RestOf(b, i);
    assert rest[0] == PublishOrCheck(pkg) && rest[1..][0] == EnsureDistTag(pkg.name, b.distTag);
    assert rest[1..][1..] == RestOf(b, i + 1);
  }

  lemma RestEnds(b: Bundle, reg: Registry)
    ensures Run(b, reg, RestOf(b, |b.packages|)) == Do(b, reg, EnsureDistTag(RELEASE_ENTRY_PACKAGE, LATEST_DIST_TAG))
  {
    var rest := RestOf(b, |b.packages|);
    assert rest == [EnsureDistTag(RELEASE_ENTRY_PACKAGE, LATEST_DIST_TAG)];
    assert rest[1..] == [];
  }
}
