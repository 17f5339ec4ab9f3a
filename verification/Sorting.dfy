/** A stable sort by an integer key, and when the sorted result is unique. */
module Sorting {

  ghost predicate Ascending<T(!new)>(key: T -> int, xs: seq<T>) {
    forall i, j | 0 <= i < j < |xs| :: key(xs[i]) <= key(xs[j])
  }

  function Insert<T>(key: T -> int, x: T, sorted: seq<T>): seq<T> {
    if sorted == [] || key(x) <= key(sorted[0]) then [x] + sorted else [sorted[0]] + Insert(key, x, sorted[1..])
  }

  function SortBy<T>(key: T -> int, xs: seq<T>): seq<T> {
    if xs == [] then [] else Insert(key, xs[0], SortBy(key, xs[1..]))
  }

  lemma {:induction false} InsertKeeps<T(!new)>(key: T -> int, x: T, sorted: seq<T>)
    ensures multiset(Insert(key, x, sorted)) == multiset([x]) + multiset(sorted)
  {
    if sorted != [] && key(x) > key(sorted[0]) {
      InsertKeeps(key, x, sorted[1..]);
      assert sorted == [sorted[0]] + sorted[1..];
    }
  }

  lemma MembersOfEqual<T(!new)>(a: seq<T>, b: seq<T>, x: T)
    requires multiset(a) == multiset(b)
    ensures x in a <==> x in b
  {
    assert x in a <==> x in multiset(a);
    assert x in b <==> x in multiset(b);
  }

  lemma {:induction false} InsertSorts<T(!new)>(key: T -> int, x: T, sorted: seq<T>)
    requires Ascending(key, sorted)
    ensures Ascending(key, Insert(key, x, sorted))
  {
    if sorted != [] && key(x) > key(sorted[0]) {
      InsertSorts(key, x, sorted[1..]);
      InsertKeeps(key, x, sorted[1..]);
      var rest := Insert(key, x, sorted[1..]);
      forall j | 0 <= j < |rest|
        ensures key(sorted[0]) <= key(rest[j])
      {
        MembersOfEqual(rest, [x] + sorted[1..], rest[j]);
        assert rest[j] in rest;
        if rest[j] != x {
          var i :| 0 <= i < |sorted[1..]| && sorted[1..][i] == rest[j];
          assert key(sorted[0]) <= key(sorted[i + 1]);
        }
      }
    }
  }

  lemma {:induction false} SortSorts<T(!new)>(key: T -> int, xs: seq<T>)
    ensures Ascending(key, SortBy(key, xs)) && multiset(SortBy(key, xs)) == multiset(xs)
  {
    if xs != [] {
      SortSorts(key, xs[1..]);
      InsertSorts(key, xs[0], SortBy(key, xs[1..]));
      InsertKeeps(key, xs[0], SortBy(key, xs[1..]));
      assert xs == [xs[0]] + xs[1..];
    }
  }

  lemma SmallestFirst<T(!new)>(key: T -> int, a: seq<T>, x: T)
    requires Ascending(key, a) && x in a
    ensures key(a[0]) <= key(x)
  {
    var i :| 0 <= i < |a| && a[i] == x;
  }

  lemma TailMultiset<T(!new)>(a: seq<T>)
    requires a != []
    ensures multiset(a) == multiset([a[0]]) + multiset(a[1..])
  {
    assert a == [a[0]] + a[1..];
  }

  lemma EqualTails<T(!new)>(a: seq<T>, b: seq<T>)
    requires multiset(a) == multiset(b) && a != [] && b != [] && a[0] == b[0]
    ensures multiset(a[1..]) == multiset(b[1..])
  {
    TailMultiset(a);
    TailMultiset(b);
    assert forall x :: multiset(a[1..])[x] == multiset(a)[x] - multiset([a[0]])[x];
    assert forall x :: multiset(b[1..])[x] == multiset(b)[x] - multiset([b[0]])[x];
  }

  lemma EqualEmptiness<T(!new)>(a: seq<T>, b: seq<T>)
    requires multiset(a) == multiset(b)
    ensures a == [] <==> b == []
  {
    if a != [] {
      MembersOfEqual(a, b, a[0]);
    }
    if b != [] {
      MembersOfEqual(a, b, b[0]);
    }
  }

  lemma EqualHeads<T(!new)>(key: T -> int, a: seq<T>, b: seq<T>)
    requires Ascending(key, a) && Ascending(key, b) && multiset(a) == multiset(b) && a != [] && b != []
    ensures key(a[0]) == key(b[0])
  {
    MembersOfEqual(a, b, a[0]);
    MembersOfEqual(a, b, b[0]);
    SmallestFirst(key, a, b[0]);
    SmallestFirst(key, b, a[0]);
  }

  ghost predicate TellsApart<T(!new)>(key: T -> int) {
    forall x, y :: key(x) == key(y) ==> x == y
  }

  /** With a key that tells the elements apart, the sorted list depends only on what is in it. */
  lemma {:induction false} SortedIsUnique<T(!new)>(key: T -> int, a: seq<T>, b: seq<T>)
    requires Ascending(key, a) && Ascending(key, b) && multiset(a) == multiset(b) && TellsApart(key)
    ensures a == b
    decreases |a|
  {
    EqualEmptiness(a, b);
    if a != [] {
      EqualHeads(key, a, b);
      EqualTails(a, b);
      SortedIsUnique(key, a[1..], b[1..]);
    }
  }
}
