/**
 What an error of `canonicalJson` says is so: its path leads to a value with that defect.
 */
module CanonicalErrors {
  import opened Wrappers
  import opened CanonicalJson

  /** The value is the entry or field of the object that the step names. */
  ghost predicate Child(h: Heap, r: Ref, step: Step, c: Value) {
    r in h && if step.Index? then h[r].Arr? && step.i < |h[r].entries| && h[r].entries[step.i] == c
              else h[r].Rec? && (step.key, c) in h[r].fields
  }

  /** Following the steps from `v`, through entries and fields, one can come to `u`. */
  ghost predicate Leads(h: Heap, v: Value, steps: seq<Step>, u: Value)
    decreases |steps|
  {
    if steps == [] then v == u
    else v.Object? && exists c :: Child(h, v.ref, steps[0], c) && Leads(h, c, steps[1..], u)
  }

  /** The object is met on the way, before the end. */
  ghost predicate OnTheWay(h: Heap, v: Value, steps: seq<Step>, r: Ref) {
    exists k :: 0 <= k < |steps| && Leads(h, v, steps[..k], Object(r))
  }

  /** What each reason says of the value. */
  ghost predicate HasDefect(h: Heap, u: Value, reason: Reason) {
    match reason
    case NonFiniteNumber => u == NonFinite
    case NotJson => u == NonJson || (u.Object? && u.ref !in h)
    case Cycle => u.Object?
    case NotPlain => u.Object? && u.ref in h && h[u.ref].Rec? && !h[u.ref].plain
    case SymbolKey => u.Object? && u.ref in h && h[u.ref].Rec? && h[u.ref].plain && h[u.ref].symbols
  }

  ghost predicate TrueOf(h: Heap, v: Value, path: seq<Step>, active: set<Ref>, e: JsonError, u: Value) {
    && |path| <= |e.path| && e.path[..|path|] == path
    && Leads(h, v, e.path[|path|..], u) && HasDefect(h, u, e.reason)
    && (e.reason == Cycle ==> u.ref in active || OnTheWay(h, v, e.path[|path|..], u.ref))
  }

  /** One step further out. */
  lemma StepOut(h: Heap, r: Ref, step: Step, c: Value, path: seq<Step>, active: set<Ref>, e: JsonError, u: Value)
    requires Child(h, r, step, c) && TrueOf(h, c, path + [step], active + {r}, e, u)
    ensures TrueOf(h, Object(r), path, active, e, u)
  {
    var inner, outer := e.path[|path| + 1..], e.path[|path|..];
    assert e.path[|path|] == (path + [step])[|path|] == step;
    assert outer == [step] + inner;
    assert e.path[..|path|] == path by {
      assert e.path[..|path| + 1][..|path|] == (path + [step])[..|path|] == path;
    }
    LeadsOut(h, r, step, c, inner, u);
    if e.reason == Cycle && u.ref !in active {
      OutOfTheWay(h, r, step, c, inner, u.ref);
    }
  }

  lemma LeadsOut(h: Heap, r: Ref, step: Step, c: Value, steps: seq<Step>, u: Value)
    requires Child(h, r, step, c) && Leads(h, c, steps, u)
    ensures Leads(h, Object(r), [step] + steps, u)
  {
    assert ([step] + steps)[1..] == steps;
  }

  lemma OutOfTheWay(h: Heap, r: Ref, step: Step, c: Value, steps: seq<Step>, met: Ref)
    requires Child(h, r, step, c) && (met == r || OnTheWay(h, c, steps, met))
    ensures OnTheWay(h, Object(r), [step] + steps, met)
  {
    var all := [step] + steps;
    if met == r {
      assert all[..0] == [] && Leads(h, Object(r), all[..0], Object(r));
    } else {
      var k :| 0 <= k < |steps| && Leads(h, c, steps[..k], Object(met));
      LeadsOut(h, r, step, c, steps[..k], Object(met));
      assert all[..k + 1] == [step] + steps[..k];
    }
  }

  // ----- the recursion

  lemma {:induction false} ErrorIsTrue(h: Heap, v: Value, path: seq<Step>, active: set<Ref>) returns (u: Value)
    requires Canon(h, v, path, active).Failure?
    ensures TrueOf(h, v, path, active, Canon(h, v, path, active).error, u)
    decreases Inactive(h, active), 1, 0
  {
    u := v;
    assert path[|path|..] == [] && path[..|path|] == path;
    if v.Object? && v.ref !in active && v.ref in h {
      var r := v.ref;
      InactiveShrinks(h, active, r);
      if h[r].Arr? {
        u := EntryErrorIsTrue(h, r, h[r].entries, 0, path, active);
      } else if h[r].plain && !h[r].symbols {
        SortFieldsMembers(h[r].fields);
        u := FieldErrorIsTrue(h, r, SortFields(h[r].fields), path, active);
      }
    }
  }

  lemma {:induction false} EntryErrorIsTrue(h: Heap, r: Ref, entries: seq<Value>, i: nat, path: seq<Step>,
                                            active: set<Ref>) returns (u: Value)
    requires r in h && r !in active && h[r].Arr? && i <= |h[r].entries| && entries == h[r].entries[i..]
    requires CanonEntries(h, entries, i, path, active + {r}).Failure?
    ensures TrueOf(h, Object(r), path, active, CanonEntries(h, entries, i, path, active + {r}).error, u)
    decreases Inactive(h, active + {r}), 2, |entries|
  {
    if Canon(h, entries[0], path + [Index(i)], active + {r}).Failure? {
      u := ErrorIsTrue(h, entries[0], path + [Index(i)], active + {r});
      StepOut(h, r, Index(i), entries[0], path, active, Canon(h, entries[0], path + [Index(i)], active + {r}).error, u);
    } else {
      u := EntryErrorIsTrue(h, r, entries[1..], i + 1, path, active);
    }
  }

  lemma {:induction false} FieldErrorIsTrue(h: Heap, r: Ref, fields: seq<(Key, Value)>, path: seq<Step>,
                                            active: set<Ref>) returns (u: Value)
    requires r in h && r !in active && h[r].Rec? && forall f | f in fields :: f in h[r].fields
    requires CanonFields(h, fields, path, active + {r}).Failure?
    ensures TrueOf(h, Object(r), path, active, CanonFields(h, fields, path, active + {r}).error, u)
    decreases Inactive(h, active + {r}), 2, |fields|
  {
    var key, c := fields[0].0, fields[0].1;
    if Canon(h, c, path + [Field(key)], active + {r}).Failure? {
      u := ErrorIsTrue(h, c, path + [Field(key)], active + {r});
      assert fields[0] in fields && (key, c) == fields[0];
      StepOut(h, r, Field(key), c, path, active, Canon(h, c, path + [Field(key)], active + {r}).error, u);
    } else {
      u := FieldErrorIsTrue(h, r, fields[1..], path, active);
    }
  }
}
