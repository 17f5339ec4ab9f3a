/**
 `canonicalJson`: a JSON value out of an object graph that may share nodes or be cyclic.
 An object key is its position in code-unit order, counted from `__proto__`; a key that is an
 array index, such as "10", has that number as well.
 */
module CanonicalJson {
  import opened Wrappers
  import opened Graphs

  datatype Ref = Ref(id: nat)
  datatype Key = Key(rank: int, index: Option<nat>)
  datatype Atom = Null | Bool(b: bool) | Str(s: string) | Num(n: real)

  /** A value: a JSON primitive, a non-finite number, something JSON has no form for, or an object. */
  datatype Value = Prim(atom: Atom) | NonFinite | NonJson | Object(ref: Ref)

  /** An object: an array, or own enumerable string-keyed fields in insertion order. */
  datatype Obj =
    | Arr(entries: seq<Value>)
    | Rec(plain: bool, symbols: bool, fields: seq<(Key, Value)>)

  type Heap = map<Ref, Obj>

  datatype Json = JAtom(atom: Atom) | JArr(items: seq<Json>) | JObj(members: seq<JMember>)
  datatype JMember = JMember(key: Key, json: Json)

  datatype Step = Index(i: nat) | Field(key: Key)
  datatype Reason = NonFiniteNumber | NotJson | Cycle | NotPlain | SymbolKey
  datatype JsonError = JsonError(path: seq<Step>, reason: Reason)

  /** `__proto__`, the key whose assignment on an object literal sets the prototype and adds no member. */
  const PROTO := Key(0, None)

  predicate IsProto(key: Key) {
    key.rank == PROTO.rank
  }

  // ----- `Object.keys(value).sort()`

  function InsertField(f: (Key, Value), sorted: seq<(Key, Value)>): seq<(Key, Value)> {
    if sorted == [] || f.0.rank <= sorted[0].0.rank then [f] + sorted
    else [sorted[0]] + InsertField(f, sorted[1..])
  }

  function SortFields(fields: seq<(Key, Value)>): seq<(Key, Value)> {
    if fields == [] then [] else InsertField(fields[0], SortFields(fields[1..]))
  }

  // ----- the order in which an object lists its keys

  /** Array indices come first, by number; all other keys stay in the order they were assigned in. */
  predicate AtMost(a: Key, b: Key) {
    if a.index.Some? then b.index.None? || a.index.value <= b.index.value else b.index.None?
  }

  function InsertMember(m: JMember, listed: seq<JMember>): seq<JMember> {
    if listed == [] || AtMost(m.key, listed[0].key) then [m] + listed
    else [listed[0]] + InsertMember(m, listed[1..])
  }

  /** The members of `output`, assigned in the given order, as the object lists them. */
  function Enumerated(members: seq<JMember>): seq<JMember> {
    if members == [] then [] else InsertMember(members[0], Enumerated(members[1..]))
  }

  // ----- the recursion

  ghost function Inactive(h: Heap, active: set<Ref>): set<Ref> {
    h.Keys - active
  }

  lemma InactiveShrinks(h: Heap, active: set<Ref>, r: Ref)
    requires r in h && r !in active
    ensures Inactive(h, active + {r}) < Inactive(h, active)
  {
    assert r in Inactive(h, active);
  }

  function Canon(h: Heap, v: Value, path: seq<Step>, active: set<Ref>): Result<Json, JsonError>
    decreases Inactive(h, active), 1, 0
  {
    match v
    case Prim(a) => Success(JAtom(a))
    case NonFinite => Failure(JsonError(path, NonFiniteNumber))
    case NonJson => Failure(JsonError(path, NotJson))
    case Object(r) =>
      if r in active then Failure(JsonError(path, Cycle))
      else if r !in h then Failure(JsonError(path, NotJson))
      else
        InactiveShrinks(h, active, r);
        match h[r]
        case Arr(entries) =>
          var items := CanonEntries(h, entries, 0, path, active + {r});
          if items.Failure? then Failure(items.error) else Success(JArr(items.value))
        case Rec(plain, symbols, fields) =>
          if !plain then Failure(JsonError(path, NotPlain))
          else if symbols then Failure(JsonError(path, SymbolKey))
          else
            var members := CanonFields(h, SortFields(fields), path, active + {r});
            if members.Failure? then Failure(members.error) else Success(JObj(Enumerated(members.value)))
  }

  function CanonEntries(h: Heap, entries: seq<Value>, i: nat, path: seq<Step>, active: set<Ref>)
    : Result<seq<Json>, JsonError>
    decreases Inactive(h, active), 2, |entries|
  {
    if entries == [] then Success([])
    else
      var first := Canon(h, entries[0], path + [Index(i)], active);
      if first.Failure? then Failure(first.error)
      else
        var rest := CanonEntries(h, entries[1..], i + 1, path, active);
        if rest.Failure? then rest else Success([first.value] + rest.value)
  }

  function CanonFields(h: Heap, fields: seq<(Key, Value)>, path: seq<Step>, active: set<Ref>)
    : Result<seq<JMember>, JsonError>
    decreases Inactive(h, active), 2, |fields|
  {
    if fields == [] then Success([])
    else
      var first := Canon(h, fields[0].1, path + [Field(fields[0].0)], active);
      if first.Failure? then Failure(first.error)
      else
        var rest := CanonFields(h, fields[1..], path, active);
        if rest.Failure? then rest
        else Success((if IsProto(fields[0].0) then [] else [JMember(fields[0].0, first.value)]) + rest.value)
  }

  // ----- which graphs have a canonical form

  function EntryRefs(entries: seq<Value>): seq<Ref> {
    if entries == [] then []
    else (if entries[0].Object? then [entries[0].ref] else []) + EntryRefs(entries[1..])
  }

  function FieldValues(fields: seq<(Key, Value)>): seq<Value> {
    if fields == [] then [] else [fields[0].1] + FieldValues(fields[1..])
  }

  function Children(o: Obj): seq<Value> {
    match o
    case Arr(entries) => entries
    case Rec(_, _, fields) => FieldValues(fields)
  }

  ghost function RefGraph(h: Heap): Graph<Ref> {
    map r | r in h :: EntryRefs(Children(h[r]))
  }

  predicate Atomic(v: Value) {
    v.Prim? || v.Object?
  }

  /** An object whose own level is JSON: plain, without symbol keys, and holding only JSON or objects. */
  predicate LocallyJson(h: Heap, r: Ref) {
    && r in h
    && (h[r].Rec? ==> h[r].plain && !h[r].symbols)
    && forall v | v in Children(h[r]) :: Atomic(v)
  }

  /** Every walk from `r` stays on JSON objects, outside `active`, and never meets an object twice. */
  ghost predicate WalksAreClean(h: Heap, r: Ref, active: set<Ref>) {
    forall w | Walk(RefGraph(h), w) && w[0] == r :: CleanWalk(h, w, active)
  }

  ghost predicate CleanWalk(h: Heap, w: seq<Ref>, active: set<Ref>) {
    && (forall x | x in w :: x !in active && LocallyJson(h, x))
    && (forall i, j | 0 <= i < j < |w| :: w[i] != w[j])
  }

  ghost predicate CanBeJson(h: Heap, v: Value, active: set<Ref>) {
    v.Prim? || (v.Object? && WalksAreClean(h, v.ref, active))
  }

  lemma {:induction false} EntryRefsMembers(entries: seq<Value>)
    ensures forall r :: r in EntryRefs(entries) <==> Object(r) in entries
  {
    if entries != [] {
      EntryRefsMembers(entries[1..]);
      assert forall v :: v in entries <==> v == entries[0] || v in entries[1..];
    }
  }

  lemma {:induction false} FieldValuesMembers(fields: seq<(Key, Value)>)
    ensures forall v :: v in FieldValues(fields) <==> exists k :: (k, v) in fields
  {
    if fields != [] {
      FieldValuesMembers(fields[1..]);
      assert forall f :: f in fields <==> f == fields[0] || f in fields[1..];
      assert fields[0] == (fields[0].0, fields[0].1);
    }
  }

  lemma {:induction false} InsertFieldMembers(f: (Key, Value), sorted: seq<(Key, Value)>)
    ensures forall g :: g in InsertField(f, sorted) <==> g == f || g in sorted
  {
    if sorted != [] && !(f.0.rank <= sorted[0].0.rank) {
      InsertFieldMembers(f, sorted[1..]);
      assert forall g :: g in sorted <==> g == sorted[0] || g in sorted[1..];
    }
  }

  lemma {:induction false} SortFieldsMembers(fields: seq<(Key, Value)>)
    ensures forall f :: f in SortFields(fields) <==> f in fields
  {
    if fields != [] {
      SortFieldsMembers(fields[1..]);
      InsertFieldMembers(fields[0], SortFields(fields[1..]));
      assert forall f :: f in fields <==> f == fields[0] || f in fields[1..];
    }
  }

  lemma {:induction false} EntriesSucceedIff(h: Heap, entries: seq<Value>, i: nat, path: seq<Step>, active: set<Ref>)
    requires forall v, p | v in entries :: Canon(h, v, p, active).Success? <==> CanBeJson(h, v, active)
    ensures CanonEntries(h, entries, i, path, active).Success? <==> forall v | v in entries :: CanBeJson(h, v, active)
  {
    if entries != [] {
      assert forall v :: v in entries <==> v == entries[0] || v in entries[1..];
      EntriesSucceedIff(h, entries[1..], i + 1, path, active);
    }
  }

  lemma {:induction false} FieldsSucceedIff(h: Heap, fields: seq<(Key, Value)>, path: seq<Step>, active: set<Ref>)
    requires forall f, p | f in fields :: Canon(h, f.1, p, active).Success? <==> CanBeJson(h, f.1, active)
    ensures CanonFields(h, fields, path, active).Success? <==> forall f | f in fields :: CanBeJson(h, f.1, active)
  {
    if fields != [] {
      assert forall f :: f in fields <==> f == fields[0] || f in fields[1..];
      FieldsSucceedIff(h, fields[1..], path, active);
    }
  }

  /** The walks from an object are clean exactly when it is locally JSON and those of its children are, without it. */
  lemma CleanUnfolds(h: Heap, r: Ref, active: set<Ref>)
    requires r in h && r !in active
    ensures WalksAreClean(h, r, active)
            <==> LocallyJson(h, r) && forall v | v in Children(h[r]) :: CanBeJson(h, v, active + {r})
  {
    EntryRefsMembers(Children(h[r]));
    if WalksAreClean(h, r, active) {
      CleanFromParent(h, r, active);
    }
    if LocallyJson(h, r) && forall v | v in Children(h[r]) :: CanBeJson(h, v, active + {r}) {
      forall w | Walk(RefGraph(h), w) && w[0] == r
        ensures CleanWalk(h, w, active)
      {
        CleanFromChildren(h, r, active, w);
      }
    }
  }

  lemma CleanFromParent(h: Heap, r: Ref, active: set<Ref>)
    requires r in h && r !in active && WalksAreClean(h, r, active)
    ensures LocallyJson(h, r) && forall v | v in Children(h[r]) :: CanBeJson(h, v, active + {r})
  {
    EntryRefsMembers(Children(h[r]));
    assert Walk(RefGraph(h), [r]) && CleanWalk(h, [r], active);
    assert r in [r];
    forall v | v in Children(h[r])
      ensures CanBeJson(h, v, active + {r})
    {
      if v.Object? {
        forall w | Walk(RefGraph(h), w) && w[0] == v.ref
          ensures CleanWalk(h, w, active + {r})
        {
          WalkCons(RefGraph(h), r, w);
          CleanTail(h, r, w, active);
        }
      }
    }
  }

  lemma CleanTail(h: Heap, r: Ref, w: seq<Ref>, active: set<Ref>)
    requires CleanWalk(h, [r] + w, active)
    ensures CleanWalk(h, w, active + {r})
  {
    var all := [r] + w;
    forall x | x in w
      ensures x !in active + {r} && LocallyJson(h, x)
    {
      assert x in all;
      var i :| 0 <= i < |w| && w[i] == x;
      assert all[0] != all[i + 1];
    }
    forall i, j | 0 <= i < j < |w|
      ensures w[i] != w[j]
    {
      assert all[i + 1] != all[j + 1];
    }
  }

  lemma CleanFromChildren(h: Heap, r: Ref, active: set<Ref>, w: seq<Ref>)
    requires r in h && r !in active && LocallyJson(h, r) && Walk(RefGraph(h), w) && w[0] == r
    requires forall v | v in Children(h[r]) :: CanBeJson(h, v, active + {r})
    ensures CleanWalk(h, w, active)
  {
    if |w| > 1 {
      WalkTail(RefGraph(h), w);
      EntryRefsMembers(Children(h[r]));
      assert Object(w[1]) in Children(h[r]);
      assert CleanWalk(h, w[1..], active + {r});
      forall x | x in w
        ensures x !in active && LocallyJson(h, x)
      {
        assert x == r || x in w[1..];
      }
      forall i, j | 0 <= i < j < |w|
        ensures w[i] != w[j]
      {
        assert w[j] == w[1..][j - 1] && w[j] in w[1..];
        assert i > 0 ==> w[i] == w[1..][i - 1];
      }
    }
  }

  /** Success, whatever is active already, is a property of the walks that lead out of the value. */
  lemma {:induction false} CanonSucceedsIff(h: Heap, v: Value, path: seq<Step>, active: set<Ref>)
    ensures Canon(h, v, path, active).Success? <==> CanBeJson(h, v, active)
    decreases Inactive(h, active)
  {
    if v.Object? {
      var r := v.ref;
      if r in active || r !in h {
        assert Walk(RefGraph(h), [r]) && r in [r];
        assert !CleanWalk(h, [r], active);
      } else {
        InactiveShrinks(h, active, r);
        forall c, p
          ensures Canon(h, c, p, active + {r}).Success? <==> CanBeJson(h, c, active + {r})
        {
          CanonSucceedsIff(h, c, p, active + {r});
        }
        CleanUnfolds(h, r, active);
        ObjectSucceedsIff(h, r, path, active);
      }
    }
  }

  lemma ObjectSucceedsIff(h: Heap, r: Ref, path: seq<Step>, active: set<Ref>)
    requires r in h && r !in active
    requires forall c, p :: Canon(h, c, p, active + {r}).Success? <==> CanBeJson(h, c, active + {r})
    ensures Canon(h, Object(r), path, active).Success?
            <==> LocallyJson(h, r) && forall v | v in Children(h[r]) :: CanBeJson(h, v, active + {r})
  {
    match h[r]
    case Arr(entries) =>
      EntriesSucceedIff(h, entries, 0, path, active + {r});
    case Rec(plain, symbols, fields) =>
      FieldsSucceedIff(h, SortFields(fields), path, active + {r});
      SortFieldsMembers(fields);
      FieldValuesMembers(fields);
  }

  /** Everything reachable is JSON-valued, and no cycle is reachable; sharing is allowed. */
  ghost predicate AcyclicJson(h: Heap, v: Value) {
    v.Prim? || (v.Object? && forall x | x == v.ref || Reaches(RefGraph(h), v.ref, x) ::
                               LocallyJson(h, x) && !Reaches(RefGraph(h), x, x))
  }

  lemma SegmentIsWalk(g: Graph<Ref>, w: seq<Ref>, i: nat, j: nat)
    requires Walk(g, w) && i < j < |w|
    ensures WalkFromTo(g, w[i..j + 1], w[i], w[j]) && Reaches(g, w[i], w[j])
  {
    var s := w[i..j + 1];
    forall k | 0 <= k < |s| - 1
      ensures Edge(g, s[k], s[k + 1])
    {
      assert Edge(g, w[i + k], w[i + k + 1]);
    }
  }

  lemma JoinWalks(g: Graph<Ref>, a: Ref, b: Ref, w: seq<Ref>) returns (u: seq<Ref>)
    requires (a == b || Reaches(g, a, b)) && Walk(g, w) && w[0] == b
    ensures Walk(g, u) && u[0] == a && |u| >= |w| && u[|u| - |w|..] == w
  {
    if a == b {
      u := w;
    } else {
      var p :| |p| >= 2 && WalkFromTo(g, p, a, b);
      u := p[..|p| - 1] + w;
      forall k | 0 <= k < |u| - 1
        ensures Edge(g, u[k], u[k + 1])
      {
        if k < |p| - 1 {
          assert Edge(g, p[k], p[k + 1]);
        } else {
          assert Edge(g, w[k - (|p| - 1)], w[k - (|p| - 1) + 1]);
        }
      }
    }
  }

  lemma CleanIffAcyclic(h: Heap, r: Ref)
    ensures WalksAreClean(h, r, {}) <==> AcyclicJson(h, Object(r))
  {
    var g := RefGraph(h);
    if WalksAreClean(h, r, {}) {
      forall x | x == r || Reaches(g, r, x)
        ensures LocallyJson(h, x) && !Reaches(g, x, x)
      {
        var u := JoinWalks(g, r, x, [x]);
        assert CleanWalk(h, u, {}) && u[|u| - 1] == x && x in u;
        if Reaches(g, x, x) {
          var p :| |p| >= 2 && WalkFromTo(g, p, x, x);
          var t := JoinWalks(g, r, x, p);
          assert false;
        }
      }
    }
    if AcyclicJson(h, Object(r)) {
      forall w | Walk(g, w) && w[0] == r
        ensures CleanWalk(h, w, {})
      {
        AcyclicWalkIsClean(h, r, w);
      }
    }
  }

  lemma AcyclicWalkIsClean(h: Heap, r: Ref, w: seq<Ref>)
    requires AcyclicJson(h, Object(r)) && Walk(RefGraph(h), w) && w[0] == r
    ensures CleanWalk(h, w, {})
  {
    var g := RefGraph(h);
    forall x | x in w
      ensures LocallyJson(h, x) && !Reaches(g, x, x)
    {
      var i :| 0 <= i < |w| && w[i] == x;
      if i > 0 {
        SegmentIsWalk(g, w, 0, i);
      }
    }
    forall i, j | 0 <= i < j < |w|
      ensures w[i] != w[j]
    {
      SegmentIsWalk(g, w, i, j);
      assert w[i] in w;
    }
  }

  /** The exact success condition of the generator's call. */
  lemma CanonicalIffAcyclicJson(h: Heap, v: Value, path: seq<Step>)
    ensures Canon(h, v, path, {}).Success? <==> AcyclicJson(h, v)
  {
    CanonSucceedsIff(h, v, path, {});
    if v.Object? {
      CleanIffAcyclic(h, v.ref);
    }
  }
}
