/**
 `canonicalJson` with the one mutable `active` set it threads through its recursion, and
 two properties of its results: what they denote, and that insertion order is invisible.
 */
module CanonicalRun {
  import opened Wrappers
  import opened CanonicalJson

  class Canonicalizer {
    const h: Heap
    var active: set<Ref>

    constructor (h: Heap)
      ensures this.h == h && active == {}
    {
      this.h := h;
      active := {};
    }

    /** Whether it returns or throws, `active` is left as it was found. */
    method CanonicalJson(v: Value, path: seq<Step>) returns (r: Result<Json, JsonError>)
      modifies this
      ensures active == old(active)
      ensures r == Canon(h, v, path, old(active))
      decreases Inactive(h, active), 1, 0
    {
      match v
      case Prim(a) => return Success(JAtom(a));
      case NonFinite => return Failure(JsonError(path, NonFiniteNumber));
      case NonJson => return Failure(JsonError(path, NotJson));
      case Object(ref) =>
        if ref in active {
          return Failure(JsonError(path, Cycle));
        }
        if ref !in h {
          return Failure(JsonError(path, NotJson));
        }
        ghost var before := active;
        InactiveShrinks(h, active, ref);
        active := active + {ref};
        r := CanonicalObject(h[ref], path);
        active := active - {ref};
        assert active == before;
    }

    /** The body of the `try`. */
    method CanonicalObject(o: Obj, path: seq<Step>) returns (r: Result<Json, JsonError>)
      modifies this
      ensures active == old(active)
      ensures r == CanonObject(h, o, path, old(active))
      decreases Inactive(h, active), 4, 0
    {
      match o
      case Arr(entries) =>
        var items := CanonicalEntries(entries, path);
        return if items.Failure? then Failure(items.error) else Success(JArr(items.value));
      case Rec(plain, symbols, fields) =>
        if !plain {
          return Failure(JsonError(path, NotPlain));
        }
        if symbols {
          return Failure(JsonError(path, SymbolKey));
        }
        var members := CanonicalFields(SortFields(fields), path);
        return if members.Failure? then Failure(members.error) else Success(JObj(Enumerated(members.value)));
    }

    /** `value.map(...)`: left to right, stopping at the first throw. */
    method CanonicalEntries(entries: seq<Value>, path: seq<Step>) returns (r: Result<seq<Json>, JsonError>)
      modifies this
      ensures active == old(active)
      ensures r == CanonEntries(h, entries, 0, path, old(active))
      decreases Inactive(h, active), 3, 0
    {
      var items: seq<Json> := [];
      assert entries[0..] == entries;
      AfterNothing(CanonEntries(h, entries, 0, path, active));
      for i := 0 to |entries|
        invariant active == old(active)
        invariant CanonEntries(h, entries, 0, path, active)
                  == AfterItems(items, CanonEntries(h, entries[i..], i, path, active))
      {
        var item := CanonicalJson(entries[i], path + [Index(i)]);
        assert entries[i..][1..] == entries[i + 1..];
        if item.Failure? {
          return Failure(item.error);
        }
        AfterItemsSnoc(items, item.value, CanonEntries(h, entries[i + 1..], i + 1, path, active));
        items := items + [item.value];
      }
      assert items + [] == items;
      return Success(items);
    }

    /** The loop over the sorted keys that fills `output`. */
    method CanonicalFields(fields: seq<(Key, Value)>, path: seq<Step>) returns (r: Result<seq<JMember>, JsonError>)
      modifies this
      ensures active == old(active)
      ensures r == CanonFields(h, fields, path, old(active))
      decreases Inactive(h, active), 3, 0
    {
      var output: seq<JMember> := [];
      assert fields[0..] == fields;
      AfterNoMembers(CanonFields(h, fields, path, active));
      for i := 0 to |fields|
        invariant active == old(active)
        invariant CanonFields(h, fields, path, active)
                  == AfterMembers(output, CanonFields(h, fields[i..], path, active))
      {
        var member := CanonicalJson(fields[i].1, path + [Field(fields[i].0)]);
        assert fields[i..][1..] == fields[i + 1..];
        if member.Failure? {
          return Failure(member.error);
        }
        var added := if IsProto(fields[i].0) then [] else [JMember(fields[i].0, member.value)];
        AfterMembersSnoc(output, added, CanonFields(h, fields[i + 1..], path, active));
        output := output + added;
      }
      assert output + [] == output;
      return Success(output);
    }
  }

  function CanonObject(h: Heap, o: Obj, path: seq<Step>, active: set<Ref>): Result<Json, JsonError> {
    match o
    case Arr(entries) =>
      var items := CanonEntries(h, entries, 0, path, active);
      if items.Failure? then Failure(items.error) else Success(JArr(items.value))
    case Rec(plain, symbols, fields) =>
      if !plain then Failure(JsonError(path, NotPlain))
      else if symbols then Failure(JsonError(path, SymbolKey))
      else
        var members := CanonFields(h, SortFields(fields), path, active);
        if members.Failure? then Failure(members.error) else Success(JObj(Enumerated(members.value)))
  }

  function AfterItems<E>(done: seq<Json>, rest: Result<seq<Json>, E>): Result<seq<Json>, E> {
    if rest.Failure? then rest else Success(done + rest.value)
  }

  function AfterMembers<E>(done: seq<JMember>, rest: Result<seq<JMember>, E>): Result<seq<JMember>, E> {
    if rest.Failure? then rest else Success(done + rest.value)
  }

  lemma AfterNothing<E>(r: Result<seq<Json>, E>)
    ensures AfterItems([], r) == r
  {
    if r.Success? {
      assert [] + r.value == r.value;
    }
  }

  lemma AfterNoMembers<E>(r: Result<seq<JMember>, E>)
    ensures AfterMembers([], r) == r
  {
    if r.Success? {
      assert [] + r.value == r.value;
    }
  }

  lemma AfterItemsSnoc<E>(done: seq<Json>, item: Json, rest: Result<seq<Json>, E>)
    ensures rest.Success? ==> AfterItems(done, Success([item] + rest.value)) == AfterItems(done + [item], rest)
    ensures rest.Failure? ==> AfterItems(done, rest) == AfterItems(done + [item], rest)
  {
    if rest.Success? {
      assert done + ([item] + rest.value) == (done + [item]) + rest.value;
    }
  }

  lemma AfterMembersSnoc<E>(done: seq<JMember>, added: seq<JMember>, rest: Result<seq<JMember>, E>)
    ensures rest.Success? ==> AfterMembers(done, Success(added + rest.value)) == AfterMembers(done + added, rest)
    ensures rest.Failure? ==> AfterMembers(done, rest) == AfterMembers(done + added, rest)
  {
    if rest.Success? {
      assert done + (added + rest.value) == (done + added) + rest.value;
    }
  }

  // ----- what a result denotes

  /** `j` is the unfolding of `v`: arrays in order, and objects with exactly their members, `__proto__` apart. */
  ghost predicate Denotes(h: Heap, j: Json, v: Value)
    decreases j
  {
    match j
    case JAtom(a) => v == Prim(a)
    case JArr(items) =>
      && v.Object? && v.ref in h && h[v.ref].Arr? && |items| == |h[v.ref].entries|
      && forall i | 0 <= i < |items| :: Denotes(h, items[i], h[v.ref].entries[i])
    case JObj(members) =>
      && v.Object? && v.ref in h && h[v.ref].Rec?
      && (forall i | 0 <= i < |members| :: MemberDenotes(h, members[i], h[v.ref].fields))
      && (forall key | HasKey(h[v.ref].fields, key) && !IsProto(key) :: HasMember(members, key))
      && ListedInOrder(members)
  }

  ghost predicate MemberDenotes(h: Heap, m: JMember, fields: seq<(Key, Value)>)
    decreases m
  {
    !IsProto(m.key) && exists u :: (m.key, u) in fields && Denotes(h, m.json, u)
  }

  ghost predicate HasKey(fields: seq<(Key, Value)>, key: Key) {
    exists i :: 0 <= i < |fields| && fields[i].0 == key
  }

  ghost predicate HasMember(members: seq<JMember>, key: Key) {
    exists i :: 0 <= i < |members| && members[i].key == key
  }

  /** Array indices first, by number, then the other keys in code-unit order. */
  ghost predicate ListedInOrder(members: seq<JMember>) {
    forall i, j | 0 <= i < j < |members| :: Precedes(members[i].key, members[j].key)
  }

  predicate Precedes(a: Key, b: Key) {
    AtMost(a, b) && (a.index.None? ==> a.rank <= b.rank)
  }

  ghost predicate SortedMembers(members: seq<JMember>) {
    forall i, j | 0 <= i < j < |members| :: members[i].key.rank <= members[j].key.rank
  }

  lemma {:induction false} CanonDenotes(h: Heap, v: Value, path: seq<Step>, active: set<Ref>)
    requires Canon(h, v, path, active).Success?
    ensures Denotes(h, Canon(h, v, path, active).value, v)
    decreases Inactive(h, active), 1, 0
  {
    if v.Object? {
      var r := v.ref;
      InactiveShrinks(h, active, r);
      match h[r]
      case Arr(entries) => EntriesDenote(h, entries, 0, path, active + {r});
      case Rec(plain, symbols, fields) => RecordDenotes(h, r, path, active + {r});
    }
  }

  lemma {:induction false} RecordDenotes(h: Heap, r: Ref, path: seq<Step>, active: set<Ref>)
    requires r in h && h[r].Rec? && CanonFields(h, SortFields(h[r].fields), path, active).Success?
    ensures Denotes(h, JObj(Enumerated(CanonFields(h, SortFields(h[r].fields), path, active).value)), Object(r))
    decreases Inactive(h, active), 4, 0
  {
    var fields, sorted := h[r].fields, SortFields(h[r].fields);
    var members := CanonFields(h, sorted, path, active).value;
    var listed := Enumerated(members);
    FieldsDenote(h, sorted, path, active);
    SortFieldsMembers(fields);
    SortFieldsSorted(fields);
    MembersOrdered(h, sorted, path, active);
    EnumeratedMembers(members);
    EnumeratedInOrder(members);
    forall i | 0 <= i < |listed|
      ensures MemberDenotes(h, listed[i], fields)
    {
      assert listed[i] in members && MemberDenotes(h, listed[i], sorted);
      var u :| (listed[i].key, u) in sorted && Denotes(h, listed[i].json, u);
      assert (listed[i].key, u) in fields;
    }
    forall key | HasKey(fields, key) && !IsProto(key)
      ensures HasMember(listed, key)
    {
      var i :| 0 <= i < |fields| && fields[i].0 == key;
      assert fields[i] in sorted;
      MembersCover(h, sorted, path, active, fields[i]);
      HasMemberListed(members, key);
    }
  }

  // ----- enumeration

  lemma {:induction false} InsertMemberMembers(m: JMember, listed: seq<JMember>)
    ensures forall n :: n in InsertMember(m, listed) <==> n == m || n in listed
  {
    if listed != [] && !AtMost(m.key, listed[0].key) {
      InsertMemberMembers(m, listed[1..]);
      assert listed == [listed[0]] + listed[1..];
    }
  }

  lemma {:induction false} EnumeratedMembers(members: seq<JMember>)
    ensures forall n :: n in Enumerated(members) <==> n in members
  {
    if members != [] {
      EnumeratedMembers(members[1..]);
      InsertMemberMembers(members[0], Enumerated(members[1..]));
      assert members == [members[0]] + members[1..];
    }
  }

  lemma HasMemberListed(members: seq<JMember>, key: Key)
    requires HasMember(members, key)
    ensures HasMember(Enumerated(members), key)
  {
    EnumeratedMembers(members);
    var i :| 0 <= i < |members| && members[i].key == key;
    assert members[i] in members;
    var k :| 0 <= k < |Enumerated(members)| && Enumerated(members)[k] == members[i];
  }

  lemma ListedCons(m: JMember, rest: seq<JMember>)
    requires ListedInOrder(rest) && forall n | n in rest :: Precedes(m.key, n.key)
    ensures ListedInOrder([m] + rest)
  {
    var all := [m] + rest;
    forall i, j | 0 <= i < j < |all|
      ensures Precedes(all[i].key, all[j].key)
    {
      assert all[j] == rest[j - 1] && all[j] in rest;
    }
  }

  lemma ListedTail(listed: seq<JMember>)
    requires listed != [] && ListedInOrder(listed)
    ensures ListedInOrder(listed[1..]) && forall n | n in listed[1..] :: Precedes(listed[0].key, n.key)
  {
  }

  /** A member assigned before all the others finds its place. */
  lemma {:induction false} InsertMemberInOrder(m: JMember, listed: seq<JMember>)
    requires ListedInOrder(listed) && forall n | n in listed :: m.key.rank <= n.key.rank
    ensures ListedInOrder(InsertMember(m, listed))
  {
    if listed != [] {
      ListedTail(listed);
      assert listed == [listed[0]] + listed[1..];
    }
    if listed == [] || AtMost(m.key, listed[0].key) {
      ListedCons(m, listed);
    } else {
      InsertMemberInOrder(m, listed[1..]);
      InsertMemberMembers(m, listed[1..]);
      ListedCons(listed[0], InsertMember(m, listed[1..]));
    }
  }

  lemma {:induction false} EnumeratedInOrder(members: seq<JMember>)
    requires SortedMembers(members)
    ensures ListedInOrder(Enumerated(members))
  {
    if members != [] {
      EnumeratedInOrder(members[1..]);
      EnumeratedMembers(members[1..]);
      forall n | n in members[1..]
        ensures members[0].key.rank <= n.key.rank
      {
        var i :| 0 <= i < |members[1..]| && members[1..][i] == n;
        assert members[i + 1] == n;
      }
      InsertMemberInOrder(members[0], Enumerated(members[1..]));
    }
  }

  /**
   Sorting the keys decides how they are listed exactly when the array indices among them are sorted by
   number, in front.
   */
  lemma {:induction false} EnumeratedIsSortedIff(members: seq<JMember>)
    requires SortedMembers(members)
    ensures Enumerated(members) == members <==> ListedInOrder(members)
  {
    EnumeratedInOrder(members);
    if ListedInOrder(members) {
      ListedStays(members);
    }
  }

  lemma {:induction false} ListedStays(members: seq<JMember>)
    requires ListedInOrder(members)
    ensures Enumerated(members) == members
  {
    if members != [] {
      ListedTail(members);
      ListedStays(members[1..]);
      assert members == [members[0]] + members[1..];
      assert |members| > 1 ==> members[1] in members[1..];
    }
  }

  /** No two members share a name, nor the number their names stand for. */
  ghost predicate NamesDiffer(members: seq<JMember>) {
    forall i, j | 0 <= i < j < |members| ::
      var a, b := members[i].key, members[j].key;
      a.rank != b.rank && (a.index.Some? ==> a.index != b.index)
  }

  /** There is one such listing of given members. */
  lemma {:induction false} ListingIsUnique(a: seq<JMember>, b: seq<JMember>)
    requires NamesDiffer(a) && NamesDiffer(b) && ListedInOrder(a) && ListedInOrder(b)
    requires forall m :: m in a <==> m in b
    ensures a == b
  {
    if a == [] {
      FirstIsMember(b);
    } else {
      assert a[0] in b && b[0] in a;
      var i :| 0 <= i < |b| && b[i] == a[0];
      var k :| 0 <= k < |a| && a[k] == b[0];
      assert i > 0 ==> Precedes(b[0].key, b[i].key);
      assert k > 0 ==> Precedes(a[0].key, a[k].key);
      TailMembers(a, b);
      ListingIsUnique(a[1..], b[1..]);
    }
  }

  lemma TailMembers(a: seq<JMember>, b: seq<JMember>)
    requires NamesDiffer(a) && NamesDiffer(b) && a != [] && b != [] && a[0] == b[0]
    requires forall m :: m in a <==> m in b
    ensures forall m :: m in a[1..] <==> m in b[1..]
  {
    TailIsRest(a);
    TailIsRest(b);
  }

  lemma TailIsRest(a: seq<JMember>)
    requires NamesDiffer(a) && a != []
    ensures forall m :: m in a[1..] <==> m in a && m != a[0]
  {
    assert a == [a[0]] + a[1..];
    assert forall i | 0 <= i < |a[1..]| :: a[1..][i] == a[i + 1] && a[0].key.rank != a[i + 1].key.rank;
  }

  lemma FirstIsMember(a: seq<JMember>)
    ensures a == [] || a[0] in a
  {
  }

  lemma {:induction false} EntriesDenote(h: Heap, entries: seq<Value>, i: nat, path: seq<Step>, active: set<Ref>)
    requires CanonEntries(h, entries, i, path, active).Success?
    ensures var items := CanonEntries(h, entries, i, path, active).value;
            |items| == |entries| && forall k | 0 <= k < |items| :: Denotes(h, items[k], entries[k])
    decreases Inactive(h, active), 2, |entries|
  {
    if entries != [] {
      CanonDenotes(h, entries[0], path + [Index(i)], active);
      EntriesDenote(h, entries[1..], i + 1, path, active);
    }
  }

  lemma {:induction false} FieldsDenote(h: Heap, fields: seq<(Key, Value)>, path: seq<Step>, active: set<Ref>)
    requires CanonFields(h, fields, path, active).Success?
    ensures forall m | m in CanonFields(h, fields, path, active).value :: MemberDenotes(h, m, fields)
    decreases Inactive(h, active), 2, |fields|
  {
    if fields != [] {
      CanonDenotes(h, fields[0].1, path + [Field(fields[0].0)], active);
      FieldsDenote(h, fields[1..], path, active);
      var rest := CanonFields(h, fields[1..], path, active).value;
      forall m | m in CanonFields(h, fields, path, active).value
        ensures MemberDenotes(h, m, fields)
      {
        if m in rest {
          var u :| (m.key, u) in fields[1..] && Denotes(h, m.json, u);
          assert (m.key, u) in fields;
        } else {
          assert (m.key, fields[0].1) == fields[0] && fields[0] in fields;
        }
      }
    }
  }

  /** One field's contribution, in front of the members of the later fields. */
  lemma MembersUnfold(h: Heap, fields: seq<(Key, Value)>, path: seq<Step>, active: set<Ref>) returns (m: JMember)
    requires fields != [] && CanonFields(h, fields, path, active).Success?
    ensures CanonFields(h, fields[1..], path, active).Success? && m.key == fields[0].0
    ensures CanonFields(h, fields, path, active).value
            == (if IsProto(m.key) then [] else [m]) + CanonFields(h, fields[1..], path, active).value
  {
    m := JMember(fields[0].0, Canon(h, fields[0].1, path + [Field(fields[0].0)], active).value);
  }

  /** No key but `__proto__` is lost. */
  lemma {:induction false} MembersCover(h: Heap, fields: seq<(Key, Value)>, path: seq<Step>, active: set<Ref>,
                                        f: (Key, Value))
    requires CanonFields(h, fields, path, active).Success? && f in fields && !IsProto(f.0)
    ensures HasMember(CanonFields(h, fields, path, active).value, f.0)
    decreases |fields|
  {
    var m := MembersUnfold(h, fields, path, active);
    var members, rest := CanonFields(h, fields, path, active).value, CanonFields(h, fields[1..], path, active).value;
    if f == fields[0] {
      assert members[0].key == f.0;
    } else {
      assert f in fields[1..];
      MembersCover(h, fields[1..], path, active, f);
      var i :| 0 <= i < |rest| && rest[i].key == f.0;
      assert members[|members| - |rest| + i].key == f.0;
    }
  }

  /** The members come in the order of the fields. */
  lemma {:induction false} MembersOrdered(h: Heap, fields: seq<(Key, Value)>, path: seq<Step>, active: set<Ref>)
    requires SortedFields(fields) && CanonFields(h, fields, path, active).Success?
    ensures SortedMembers(CanonFields(h, fields, path, active).value)
    ensures forall m | m in CanonFields(h, fields, path, active).value :: HasKey(fields, m.key)
    decreases |fields|
  {
    if fields != [] {
      var m := MembersUnfold(h, fields, path, active);
      var rest := CanonFields(h, fields[1..], path, active).value;
      MembersOrdered(h, fields[1..], path, active);
      forall n | n in rest
        ensures HasKey(fields, n.key) && m.key.rank <= n.key.rank
      {
        var i :| 0 <= i < |fields[1..]| && fields[1..][i].0 == n.key;
        assert fields[i + 1].0 == n.key;
      }
      MembersCons(m, rest);
      assert [] + rest == rest && HasKey(fields, m.key);
    }
  }

  lemma MembersCons(m: JMember, rest: seq<JMember>)
    requires SortedMembers(rest) && forall n | n in rest :: m.key.rank <= n.key.rank
    ensures SortedMembers([m] + rest)
  {
    var all := [m] + rest;
    forall i, j | 0 <= i < j < |all|
      ensures all[i].key.rank <= all[j].key.rank
    {
      assert all[j] == rest[j - 1];
      assert all[j] in rest;
    }
  }

  ghost predicate SortedFields(fields: seq<(Key, Value)>) {
    forall i, j | 0 <= i < j < |fields| :: fields[i].0.rank <= fields[j].0.rank
  }

  lemma {:induction false} InsertFieldSorted(f: (Key, Value), sorted: seq<(Key, Value)>)
    requires SortedFields(sorted)
    ensures SortedFields(InsertField(f, sorted))
  {
    if sorted != [] && !(f.0.rank <= sorted[0].0.rank) {
      InsertFieldSorted(f, sorted[1..]);
      InsertFieldMembers(f, sorted[1..]);
      var rest := InsertField(f, sorted[1..]);
      forall g | g in rest
        ensures sorted[0].0.rank <= g.0.rank
      {
        if g in sorted[1..] {
          var i :| 0 <= i < |sorted[1..]| && sorted[1..][i] == g;
          assert sorted[i + 1] == g;
        }
      }
      FieldsCons(sorted[0], rest);
    }
  }

  lemma FieldsCons(f: (Key, Value), rest: seq<(Key, Value)>)
    requires SortedFields(rest) && forall g | g in rest :: f.0.rank <= g.0.rank
    ensures SortedFields([f] + rest)
  {
    var all := [f] + rest;
    forall i, j | 0 <= i < j < |all|
      ensures all[i].0.rank <= all[j].0.rank
    {
      assert all[j] == rest[j - 1];
      assert all[j] in rest;
    }
  }

  lemma {:induction false} SortFieldsSorted(fields: seq<(Key, Value)>)
    ensures SortedFields(SortFields(fields)) && |SortFields(fields)| == |fields|
  {
    if fields != [] {
      SortFieldsSorted(fields[1..]);
      InsertFieldSorted(fields[0], SortFields(fields[1..]));
      InsertFieldLength(fields[0], SortFields(fields[1..]));
    }
  }

  lemma {:induction false} InsertFieldLength(f: (Key, Value), sorted: seq<(Key, Value)>)
    ensures |InsertField(f, sorted)| == |sorted| + 1
  {
    if sorted != [] && !(f.0.rank <= sorted[0].0.rank) {
      InsertFieldLength(f, sorted[1..]);
    }
  }

  // ----- insertion order is invisible

  /** A key's position in code-unit order identifies it. */
  ghost predicate DistinctKeys(fields: seq<(Key, Value)>) {
    forall i, j | 0 <= i < j < |fields| :: fields[i].0.rank != fields[j].0.rank
  }

  /** Same graphs, except that records may list their distinct keys in another order. */
  ghost predicate SameButForOrder(h: Heap, k: Heap) {
    && (forall r :: r in h <==> r in k)
    && forall r | r in h :: SameObject(h[r], k[r])
  }

  ghost predicate SameObject(o: Obj, p: Obj) {
    if o.Arr? then o == p
    else
      && p.Rec? && o.plain == p.plain && o.symbols == p.symbols
      && DistinctKeys(o.fields) && DistinctKeys(p.fields) && |o.fields| == |p.fields|
      && forall f :: f in o.fields <==> f in p.fields
  }

  ghost predicate DistinctFields(fields: seq<(Key, Value)>) {
    forall i, j | 0 <= i < j < |fields| :: fields[i] != fields[j]
  }

  ghost predicate RanksDecide(a: seq<(Key, Value)>) {
    forall f, g | f in a && g in a && f.0.rank == g.0.rank :: f == g
  }

  ghost predicate SameFields(a: seq<(Key, Value)>, b: seq<(Key, Value)>) {
    |a| == |b| && forall f :: f in a <==> f in b
  }

  /** Two sorted lists of the same fields start with the same field, if keys decide. */
  lemma SameHead(a: seq<(Key, Value)>, b: seq<(Key, Value)>)
    requires SortedFields(a) && SortedFields(b) && a != [] && b != []
    requires a[0] in b && b[0] in a && RanksDecide(a)
    ensures a[0] == b[0]
  {
    var i :| 0 <= i < |b| && b[i] == a[0];
    var j :| 0 <= j < |a| && a[j] == b[0];
    assert a[0].0.rank == b[0].0.rank;
    assert a[0] in a;
  }

  lemma {:induction false} SortedFieldsAreUnique(a: seq<(Key, Value)>, b: seq<(Key, Value)>)
    requires SortedFields(a) && SortedFields(b) && SameFields(a, b) && RanksDecide(a)
    requires DistinctFields(a) && DistinctFields(b)
    ensures a == b
    decreases |a|
  {
    if a != [] {
      assert a[0] in b && b[0] in a;
      SameHead(a, b);
      TailSorted(a);
      TailSorted(b);
      SameTails(a, b);
      SortedFieldsAreUnique(a[1..], b[1..]);
      assert a == [a[0]] + a[1..] && b == [b[0]] + b[1..];
    }
  }

  lemma SameTails(a: seq<(Key, Value)>, b: seq<(Key, Value)>)
    requires SameFields(a, b) && RanksDecide(a) && DistinctFields(a) && DistinctFields(b)
    requires a != [] && b != [] && a[0] == b[0]
    ensures SameFields(a[1..], b[1..]) && RanksDecide(a[1..])
  {
    TailMember(a);
    TailMember(b);
  }

  lemma TailSorted(a: seq<(Key, Value)>)
    requires a != [] && SortedFields(a) && DistinctFields(a)
    ensures SortedFields(a[1..]) && DistinctFields(a[1..])
  {
  }

  lemma TailMember(a: seq<(Key, Value)>)
    requires a != [] && DistinctFields(a)
    ensures forall f :: f in a[1..] <==> f in a && f != a[0]
  {
    forall f | f in a[1..]
      ensures f != a[0]
    {
      var i :| 0 <= i < |a[1..]| && a[1..][i] == f;
      assert a[0] != a[i + 1];
    }
  }

  lemma {:induction false} InsertFieldDistinct(f: (Key, Value), sorted: seq<(Key, Value)>)
    requires f !in sorted && DistinctFields(sorted)
    ensures DistinctFields(InsertField(f, sorted))
  {
    if sorted != [] && !(f.0.rank <= sorted[0].0.rank) {
      InsertFieldDistinct(f, sorted[1..]);
      InsertFieldMembers(f, sorted[1..]);
      TailMember(sorted);
      assert sorted[0] !in InsertField(f, sorted[1..]);
    }
  }

  lemma {:induction false} SortFieldsDistinct(fields: seq<(Key, Value)>)
    requires DistinctKeys(fields)
    ensures DistinctFields(SortFields(fields))
  {
    if fields != [] {
      SortFieldsDistinct(fields[1..]);
      SortFieldsMembers(fields[1..]);
      assert fields[0] !in fields[1..];
      InsertFieldDistinct(fields[0], SortFields(fields[1..]));
    }
  }

  lemma SortHidesOrder(a: seq<(Key, Value)>, b: seq<(Key, Value)>)
    requires DistinctKeys(a) && DistinctKeys(b) && |a| == |b| && forall f :: f in a <==> f in b
    ensures SortFields(a) == SortFields(b)
  {
    SortFieldsSorted(a);
    SortFieldsSorted(b);
    SortFieldsDistinct(a);
    SortFieldsDistinct(b);
    SortFieldsMembers(a);
    SortFieldsMembers(b);
    forall f, g | f in SortFields(a) && g in SortFields(a) && f.0.rank == g.0.rank
      ensures f == g
    {
      KeyDecides(a, f, g);
    }
    SortedFieldsAreUnique(SortFields(a), SortFields(b));
  }

  lemma KeyDecides(a: seq<(Key, Value)>, f: (Key, Value), g: (Key, Value))
    requires DistinctKeys(a) && f in a && g in a && f.0.rank == g.0.rank
    ensures f == g
  {
    var i :| 0 <= i < |a| && a[i] == f;
    var j :| 0 <= j < |a| && a[j] == g;
    assert i == j;
  }

  /** The whole outcome, errors and their paths included, is the same for every insertion order. */
  lemma {:induction false} CanonHidesOrder(h: Heap, k: Heap, v: Value, path: seq<Step>, active: set<Ref>)
    requires SameButForOrder(h, k)
    ensures Canon(h, v, path, active) == Canon(k, v, path, active)
    decreases Inactive(h, active), 1, 0
  {
    if v.Object? && v.ref !in active && v.ref in h {
      var r := v.ref;
      InactiveShrinks(h, active, r);
      assert SameObject(h[r], k[r]);
      match h[r]
      case Arr(entries) => EntriesHideOrder(h, k, entries, 0, path, active + {r});
      case Rec(plain, symbols, fields) =>
        SortHidesOrder(fields, k[r].fields);
        FieldsHideOrder(h, k, SortFields(fields), path, active + {r});
    }
  }

  lemma {:induction false} EntriesHideOrder(h: Heap, k: Heap, entries: seq<Value>, i: nat, path: seq<Step>,
                                            active: set<Ref>)
    requires SameButForOrder(h, k)
    ensures CanonEntries(h, entries, i, path, active) == CanonEntries(k, entries, i, path, active)
    decreases Inactive(h, active), 2, |entries|
  {
    if entries != [] {
      CanonHidesOrder(h, k, entries[0], path + [Index(i)], active);
      EntriesHideOrder(h, k, entries[1..], i + 1, path, active);
    }
  }

  lemma {:induction false} FieldsHideOrder(h: Heap, k: Heap, fields: seq<(Key, Value)>, path: seq<Step>,
                                           active: set<Ref>)
    requires SameButForOrder(h, k)
    ensures CanonFields(h, fields, path, active) == CanonFields(k, fields, path, active)
    decreases Inactive(h, active), 2, |fields|
  {
    if fields != [] {
      CanonHidesOrder(h, k, fields[0].1, path + [Field(fields[0].0)], active);
      FieldsHideOrder(h, k, fields[1..], path, active);
    }
  }

  // ----- two records whose form is not what sorting suggests

  /** `__proto__` is lost: the key is there, the call succeeds, and the result is empty. */
  lemma ProtoIsLost(r: Ref, a: Atom)
    ensures var h := map[r := Rec(true, false, [(PROTO, Prim(a))])];
            HasKey(h[r].fields, PROTO) && Canon(h, Object(r), [], {}) == Success(JObj([]))
  {
    var fields := [(PROTO, Prim(a))];
    var h := map[r := Rec(true, false, fields)];
    assert fields[0].0 == PROTO && fields[1..] == [];
    assert SortFields(fields) == fields;
    assert SortFields([]) == [] && CanonFields(h, [], [], {} + {r}) == Success([]);
    PrimitiveField(h, fields, {} + {r}, a);
  }

  /** The keys "10" and "9" are assigned in that order, and listed the other way round. */
  lemma IndexKeysAreListedByNumber(r: Ref, rank: int, a: Atom, b: Atom)
    requires rank != PROTO.rank && rank + 1 != PROTO.rank
    ensures var ten, nine := Key(rank, Some(10)), Key(rank + 1, Some(9));
            var h := map[r := Rec(true, false, [(ten, Prim(a)), (nine, Prim(b))])];
            && SortFields(h[r].fields) == h[r].fields
            && Canon(h, Object(r), [], {}) == Success(JObj([JMember(nine, JAtom(b)), JMember(ten, JAtom(a))]))
  {
    var ten, nine := Key(rank, Some(10)), Key(rank + 1, Some(9));
    var fields := [(ten, Prim(a)), (nine, Prim(b))];
    var h := map[r := Rec(true, false, fields)];
    TwoFields((ten, Prim(a)), (nine, Prim(b)));
    TwoPrimitives(h, fields, {} + {r}, a, b);
    TwoMembers(JMember(ten, JAtom(a)), JMember(nine, JAtom(b)));
  }

  lemma TwoFields(f: (Key, Value), g: (Key, Value))
    requires f.0.rank <= g.0.rank
    ensures SortFields([f, g]) == [f, g]
  {
    assert [f, g][1..] == [g] && [g][1..] == [];
    assert SortFields([g]) == [g] && [f] + [g] == [f, g];
  }

  lemma PrimitiveField(h: Heap, fields: seq<(Key, Value)>, active: set<Ref>, a: Atom)
    requires fields != [] && fields[0].1 == Prim(a) && CanonFields(h, fields[1..], [], active).Success?
    ensures CanonFields(h, fields, [], active)
         == Success((if IsProto(fields[0].0) then [] else [JMember(fields[0].0, JAtom(a))])
                    + CanonFields(h, fields[1..], [], active).value)
  {
    assert Canon(h, fields[0].1, [] + [Field(fields[0].0)], active) == Success(JAtom(a));
  }

  lemma TwoPrimitives(h: Heap, fields: seq<(Key, Value)>, active: set<Ref>, a: Atom, b: Atom)
    requires |fields| == 2 && fields[0].1 == Prim(a) && fields[1].1 == Prim(b)
    requires !IsProto(fields[0].0) && !IsProto(fields[1].0)
    ensures CanonFields(h, fields, [], active)
         == Success([JMember(fields[0].0, JAtom(a)), JMember(fields[1].0, JAtom(b))])
  {
    assert fields[1..][1..] == [] && CanonFields(h, [], [], active) == Success([]);
    PrimitiveField(h, fields[1..], active, b);
    PrimitiveField(h, fields, active, a);
    var m, n := JMember(fields[0].0, JAtom(a)), JMember(fields[1].0, JAtom(b));
    assert [n] + [] == [n] && [m] + [n] == [m, n];
  }

  lemma TwoMembers(m: JMember, n: JMember)
    requires !AtMost(m.key, n.key)
    ensures Enumerated([m, n]) == [n, m]
  {
    assert [m, n][1..] == [n] && [n][1..] == [];
    assert Enumerated([n]) == [n] && InsertMember(m, []) == [m] && [n] + [m] == [n, m];
  }
}
