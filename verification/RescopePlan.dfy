/**
 The plan over a tree of files: classify every exact edit before writing anything, then
 apply the pending ones in order, re-reading each file.
 */
module RescopePlan {
  import opened Wrappers
  import opened ExactText
  import opened ExactEdits
  import opened EditLaws
  import opened EditPairs

  datatype File = File(path: string)
  datatype Edit = Edit(file: File, find: string, replace: string, count: int)
  datatype Mode = Apply | Check | Dry

  type Files = map<File, string>

  function Oriented(e: Edit, reverse: bool): Edit {
    if reverse then e.(find := e.replace, replace := e.find) else e
  }

  function StateOf(files: Files, e: Edit): EditState
    requires e.file in files
  {
    ExactEditState(files[e.file], e.find, e.replace, e.count)
  }

  ghost predicate Readable(files: Files, edits: seq<Edit>) {
    forall e | e in edits :: e.file in files
  }

  function IfPending(files: Files, e: Edit): seq<Edit>
    requires e.file in files
  {
    if StateOf(files, e) == Pending then [e] else []
  }

  /** The edits still to be made, in order. */
  function PendingEdits(files: Files, edits: seq<Edit>): (pending: seq<Edit>)
    requires Readable(files, edits)
    ensures Readable(files, pending)
  {
    if edits == [] then []
    else IfPending(files, edits[0]) + PendingEdits(files, edits[1..])
  }

  function WriteEdit(files: Files, e: Edit): Files
    requires e.file in files
  {
    files[e.file := ApplyEdit(files[e.file], e.find, e.replace)]
  }

  function WriteAll(files: Files, edits: seq<Edit>): (after: Files)
    requires Readable(files, edits)
    ensures forall f :: f in after <==> f in files
    decreases |edits|
  {
    if edits == [] then files else WriteAll(WriteEdit(files, edits[0]), edits[1..])
  }

  predicate Fails(files: Files, e: Edit, mode: Mode)
    requires e.file in files
  {
    StateOf(files, e) == Invalid || (mode == Check && StateOf(files, e) != Applied)
  }

  function Orient(edits: seq<Edit>, reverse: bool): (oriented: seq<Edit>)
    ensures |oriented| == |edits|
    ensures forall i | 0 <= i < |edits| :: oriented[i] == Oriented(edits[i], reverse)
  {
    if edits == [] then [] else [Oriented(edits[0], reverse)] + Orient(edits[1..], reverse)
  }

  /** The first pass: every edit is classified against the tree as it stands, and nothing is written. */
  method Classify(files: Files, edits: seq<Edit>, mode: Mode) returns (failures: seq<Edit>, planned: seq<Edit>)
    requires Readable(files, edits)
    ensures forall e ::
              e in failures <==>
                && e in edits
                && (ExactEditState(files[e.file], e.find, e.replace, e.count) == Invalid
                    || (mode == Check && ExactEditState(files[e.file], e.find, e.replace, e.count) == Pending))
    ensures failures == [] && mode != Check ==> planned == PendingEdits(files, edits)
  {
    planned, failures := [], [];
    for i := 0 to |edits|
      invariant forall e :: e in failures <==> e in edits[..i] && Fails(files, e, mode)
      invariant mode != Check && failures == [] ==> planned == PendingEdits(files, edits[..i])
    {
      PendingSnoc(files, edits, i);
      assert edits[..i + 1] == edits[..i] + [edits[i]];
      if Fails(files, edits[i], mode) {
        failures := failures + [edits[i]];
      } else if mode != Check && StateOf(files, edits[i]) == Pending {
        planned := planned + [edits[i]];
      }
    }
    assert edits[..|edits|] == edits;
  }

  class Tree {
    var files: Files

    constructor (files: Files)
      ensures this.files == files
    {
      this.files := files;
    }

    /**
     A single invalid edit, or when checking a single one that is not applied, is reported and leaves the whole
     tree untouched; otherwise an apply run writes exactly the pending edits.
     */
    method RunExactEdits(edits: seq<Edit>, mode: Mode, reverse: bool) returns (failures: seq<Edit>)
      requires Readable(files, edits)
      modifies this
      ensures failures == []
              <==> forall e | e in edits ::
                     var state := if reverse then ExactEditState(old(files)[e.file], e.replace, e.find, e.count)
                                  else ExactEditState(old(files)[e.file], e.find, e.replace, e.count);
                     state != Invalid && (mode == Check ==> state == Applied)
      ensures forall e ::
                e in failures <==>
                  && e in Orient(edits, reverse) && e.file in old(files)
                  && (ExactEditState(old(files)[e.file], e.find, e.replace, e.count) == Invalid
                      || (mode == Check && ExactEditState(old(files)[e.file], e.find, e.replace, e.count) != Applied))
      ensures files != old(files) ==> mode == Apply && failures == []
      ensures failures == [] && mode == Apply ==>
                && Readable(old(files), Orient(edits, reverse))
                && files == WriteAll(old(files), PendingEdits(old(files), Orient(edits, reverse)))
    {
      var planned;
      OrientedReadable(files, edits, reverse);
      failures, planned := Classify(files, Orient(edits, reverse), mode);
      OrientedFail(files, edits, reverse, failures, mode);
      if |failures| == 0 && mode == Apply {
        WritePlanned(planned);
      }
    }

    method WritePlanned(planned: seq<Edit>)
      requires Readable(files, planned)
      modifies this
      ensures files == WriteAll(old(files), planned)
    {
      for i := 0 to |planned|
        invariant Readable(files, planned)
        invariant WriteAll(files, planned[i..]) == WriteAll(old(files), planned)
      {
        assert planned[i..][1..] == planned[i + 1..];
        files := WriteEdit(files, planned[i]);
      }
    }
  }

  lemma OrientedReadable(files: Files, edits: seq<Edit>, reverse: bool)
    requires Readable(files, edits)
    ensures Readable(files, Orient(edits, reverse))
  {
    forall e | e in Orient(edits, reverse)
      ensures e.file in files
    {
      var i :| 0 <= i < |edits| && Orient(edits, reverse)[i] == e;
      assert edits[i] in edits;
    }
  }

  lemma OrientedFail(files: Files, edits: seq<Edit>, reverse: bool, failures: seq<Edit>, mode: Mode)
    requires Readable(files, edits)
    requires forall e :: e in failures <==> e in Orient(edits, reverse) && e.file in files && Fails(files, e, mode)
    ensures failures == [] <==> forall e | e in edits :: !Fails(files, Oriented(e, reverse), mode)
  {
    forall e | e in edits
      ensures Oriented(e, reverse) in Orient(edits, reverse)
    {
      var i :| 0 <= i < |edits| && edits[i] == e;
      assert Orient(edits, reverse)[i] == Oriented(e, reverse);
    }
    if failures != [] {
      var e := failures[0];
      assert e in Orient(edits, reverse);
      var i :| 0 <= i < |edits| && Orient(edits, reverse)[i] == e;
      assert edits[i] in edits;
    }
  }

  lemma {:induction false} PendingAppend(files: Files, a: seq<Edit>, e: Edit)
    requires Readable(files, a) && Readable(files, a + [e]) && e.file in files
    ensures PendingEdits(files, a + [e]) == PendingEdits(files, a) + IfPending(files, e)
  {
    if a == [] {
      assert a + [e] == [e] && [e][1..] == [];
    } else {
      assert (a + [e])[0] == a[0] && (a + [e])[1..] == a[1..] + [e];
      PendingAppend(files, a[1..], e);
      Associative(IfPending(files, a[0]), PendingEdits(files, a[1..]), IfPending(files, e));
    }
  }

  lemma Associative(a: seq<Edit>, b: seq<Edit>, c: seq<Edit>)
    ensures a + (b + c) == (a + b) + c
  {
  }

  lemma PendingSnoc(files: Files, edits: seq<Edit>, i: nat)
    requires Readable(files, edits) && i < |edits|
    ensures PendingEdits(files, edits[..i + 1])
         == PendingEdits(files, edits[..i]) + IfPending(files, edits[i])
  {
    assert edits[..i + 1] == edits[..i] + [edits[i]];
    PendingAppend(files, edits[..i], edits[i]);
  }

  lemma {:induction false} PendingMembers(files: Files, edits: seq<Edit>)
    requires Readable(files, edits)
    ensures forall e :: e in PendingEdits(files, edits) <==> e in edits && StateOf(files, e) == Pending
  {
    if edits != [] {
      PendingMembers(files, edits[1..]);
      assert forall e :: e in edits <==> e == edits[0] || e in edits[1..];
    }
  }

  // ----- edits that cannot disturb each other: the run lands everything, and its reverse restores the tree

  ghost predicate Apart(d: Edit, e: Edit) {
    d.file == e.file ==> Independent(d.find, d.replace, e.find, e.replace)
  }

  /** Edits of one file never share or overlap any of their strings. */
  ghost predicate PairwiseApart(edits: seq<Edit>) {
    && (forall i | 0 <= i < |edits| ::
         edits[i].find != "" && edits[i].replace != "" && edits[i].find != edits[i].replace)
    && forall i, j | 0 <= i < j < |edits| :: Apart(edits[i], edits[j])
  }

  ghost predicate ApartFrom(edits: seq<Edit>, e: Edit) {
    forall i | 0 <= i < |edits| ::
      edits[i].find != "" && edits[i].replace != "" && Apart(edits[i], e)
  }

  /** The exact condition for an edit to apply once and reverse, in its file as it stands. */
  ghost predicate LandsIn(files: Files, e: Edit)
    requires e.file in files
  {
    Lands(files[e.file], e.find, e.replace)
  }

  lemma WriteKeeps(files: Files, d: Edit, e: Edit)
    requires d.file in files && e.file in files && Apart(d, e)
    requires d.find != "" && d.replace != "" && e.find != "" && e.replace != ""
    ensures StateOf(WriteEdit(files, d), e) == StateOf(files, e)
    ensures LandsIn(files, e) ==> LandsIn(WriteEdit(files, d), e)
  {
    if d.file == e.file {
      StateIsKept(files[e.file], d.find, d.replace, e.find, e.replace, e.count);
      if LandsIn(files, e) {
        LandsIsKept(files[e.file], d.find, d.replace, e.find, e.replace);
      }
    }
  }

  lemma {:induction false} RunKeeps(files: Files, edits: seq<Edit>, e: Edit)
    requires Readable(files, edits) && e.file in files && ApartFrom(edits, e) && e.find != "" && e.replace != ""
    ensures StateOf(WriteAll(files, edits), e) == StateOf(files, e)
    ensures LandsIn(files, e) ==> LandsIn(WriteAll(files, edits), e)
    decreases |edits|
  {
    if edits != [] {
      assert Apart(edits[0], e);
      WriteKeeps(files, edits[0], e);
      RunKeeps(WriteEdit(files, edits[0]), edits[1..], e);
    }
  }

  lemma TailIsApart(edits: seq<Edit>)
    requires edits != [] && PairwiseApart(edits)
    ensures PairwiseApart(edits[1..])
    ensures forall i | 0 <= i < |edits[1..]| :: Apart(edits[0], edits[1..][i])
  {
    forall i, j | 0 <= i < j < |edits[1..]|
      ensures Apart(edits[1..][i], edits[1..][j])
    {
      assert Apart(edits[i + 1], edits[j + 1]);
    }
  }

  lemma SeparableIsSymmetric(a: string, b: string)
    ensures Separable(a, b) <==> Separable(b, a)
  {
  }

  lemma ApartIsSymmetric(d: Edit, e: Edit)
    requires Apart(d, e)
    ensures Apart(e, d)
  {
    SeparableIsSymmetric(d.find, e.find);
    SeparableIsSymmetric(d.find, e.replace);
    SeparableIsSymmetric(d.replace, e.find);
    SeparableIsSymmetric(d.replace, e.replace);
  }

  lemma RestIsApart(edits: seq<Edit>)
    requires edits != [] && PairwiseApart(edits)
    ensures ApartFrom(edits[1..], edits[0])
  {
    forall i | 0 <= i < |edits[1..]|
      ensures Apart(edits[1..][i], edits[0])
    {
      assert Apart(edits[0], edits[i + 1]);
      ApartIsSymmetric(edits[0], edits[i + 1]);
    }
  }

  /** Every edit of a run that was pending and can land is applied at the end, and then pending for the reverse run. */
  lemma {:induction false} RunLands(files: Files, edits: seq<Edit>, e: Edit)
    requires Readable(files, edits) && PairwiseApart(edits) && e in edits
    requires StateOf(files, e) == Pending && LandsIn(files, e)
    ensures StateOf(WriteAll(files, edits), e) == Applied
    ensures StateOf(WriteAll(files, edits), Oriented(e, true)) == Pending
    decreases |edits|
  {
    TailIsApart(edits);
    var first := WriteEdit(files, edits[0]);
    if e == edits[0] {
      RestIsApart(edits);
      PendingEditLandsIff(files[e.file], e.find, e.replace, e.count);
      LandedIsReversible(files[e.file], e.find, e.replace, e.count);
      RunKeeps(first, edits[1..], e);
      ReversedIsApart(edits[1..], e);
      RunKeeps(first, edits[1..], Oriented(e, true));
    } else {
      var i :| 0 <= i < |edits| && edits[i] == e;
      assert Apart(edits[0], edits[1..][i - 1]);
      WriteKeeps(files, edits[0], e);
      RunLands(first, edits[1..], e);
    }
  }

  lemma ReversedIsApart(edits: seq<Edit>, e: Edit)
    requires ApartFrom(edits, e)
    ensures ApartFrom(edits, Oriented(e, true))
  {
    forall i | 0 <= i < |edits|
      ensures Apart(edits[i], Oriented(e, true))
    {
      assert Apart(edits[i], e);
    }
  }

  // ----- the pending edits are still apart

  lemma {:induction false} PendingIsApartFrom(files: Files, edits: seq<Edit>, e: Edit)
    requires Readable(files, edits) && ApartFrom(edits, e)
    ensures ApartFrom(PendingEdits(files, edits), e)
  {
    if edits != [] {
      assert Apart(edits[0], e);
      PendingIsApartFrom(files, edits[1..], e);
    }
  }

  lemma {:induction false} PendingIsApart(files: Files, edits: seq<Edit>)
    requires Readable(files, edits) && PairwiseApart(edits)
    ensures PairwiseApart(PendingEdits(files, edits))
  {
    if edits != [] {
      TailIsApart(edits);
      PendingIsApart(files, edits[1..]);
      RestIsApart(edits);
      PendingIsApartFrom(files, edits[1..], edits[0]);
      if StateOf(files, edits[0]) == Pending {
        ConsIsApart(edits[0], PendingEdits(files, edits[1..]));
      }
    }
  }

  lemma ConsIsApart(e: Edit, rest: seq<Edit>)
    requires e.find != "" && e.replace != "" && e.find != e.replace && PairwiseApart(rest) && ApartFrom(rest, e)
    ensures PairwiseApart([e] + rest)
  {
    forall i, j | 0 <= i < j < |[e] + rest|
      ensures Apart(([e] + rest)[i], ([e] + rest)[j])
    {
      if i == 0 {
        assert Apart(rest[j - 1], e);
        ApartIsSymmetric(rest[j - 1], e);
      } else {
        assert Apart(rest[i - 1], rest[j - 1]);
      }
    }
  }

  lemma OthersAreApart(edits: seq<Edit>, i: nat, files: Files)
    requires Readable(files, edits) && PairwiseApart(edits) && i < |edits| && StateOf(files, edits[i]) != Pending
    ensures ApartFrom(PendingEdits(files, edits), edits[i])
  {
    PendingMembers(files, edits);
    var pending := PendingEdits(files, edits);
    forall m | 0 <= m < |pending|
      ensures pending[m].find != "" && pending[m].replace != "" && Apart(pending[m], edits[i])
    {
      assert pending[m] in edits;
      var j :| 0 <= j < |edits| && edits[j] == pending[m];
      if j < i {
        assert Apart(edits[j], edits[i]);
      } else {
        assert Apart(edits[i], edits[j]);
        ApartIsSymmetric(edits[i], edits[j]);
      }
    }
  }

  /** After an apply run every edit reads as applied, so a second run would write nothing. */
  lemma ApplyRunLands(files: Files, edits: seq<Edit>)
    requires Readable(files, edits) && PairwiseApart(edits)
    requires forall e | e in edits ::
               StateOf(files, e) == Applied || (StateOf(files, e) == Pending && LandsIn(files, e))
    ensures var after := WriteAll(files, PendingEdits(files, edits));
            (forall e | e in edits :: StateOf(after, e) == Applied) && PendingEdits(after, edits) == []
  {
    var pending := PendingEdits(files, edits);
    var after := WriteAll(files, pending);
    PendingMembers(files, edits);
    PendingIsApart(files, edits);
    forall e | e in edits
      ensures StateOf(after, e) == Applied
    {
      if StateOf(files, e) == Pending {
        RunLands(files, pending, e);
      } else {
        var i: nat :| i < |edits| && edits[i] == e;
        OthersAreApart(edits, i, files);
        RunKeeps(files, pending, e);
      }
    }
    NonePending(after, edits);
  }

  lemma {:induction false} NonePending(files: Files, edits: seq<Edit>)
    requires Readable(files, edits) && forall e | e in edits :: StateOf(files, e) == Applied
    ensures PendingEdits(files, edits) == []
  {
    if edits != [] {
      NonePending(files, edits[1..]);
      assert edits[0] in edits;
    }
  }

  // ----- the reverse run

  lemma WritesCommute(files: Files, d: Edit, e: Edit)
    requires d.file in files && e.file in files && Apart(d, e)
    requires d.find != "" && d.replace != "" && e.find != "" && e.replace != ""
    ensures WriteEdit(WriteEdit(files, d), e) == WriteEdit(WriteEdit(files, e), d)
  {
    if d.file == e.file {
      EditsCommute(files[e.file], d.find, d.replace, e.find, e.replace);
    }
  }

  lemma {:induction false} RunCommutes(files: Files, edits: seq<Edit>, e: Edit)
    requires Readable(files, edits) && e.file in files && ApartFrom(edits, e) && e.find != "" && e.replace != ""
    ensures WriteEdit(WriteAll(files, edits), e) == WriteAll(WriteEdit(files, e), edits)
    decreases |edits|
  {
    if edits != [] {
      assert Apart(edits[0], e);
      RunCommutes(WriteEdit(files, edits[0]), edits[1..], e);
      WritesCommute(files, edits[0], e);
    }
  }

  lemma UndoneWrite(files: Files, e: Edit)
    requires e.file in files && e.find != "" && e.replace != "" && LandsIn(files, e)
    ensures WriteEdit(WriteEdit(files, e), Oriented(e, true)) == files
  {
    RestoredIff(files[e.file], e.find, e.replace);
  }

  /** Undoing the edits in the order they were made, each by its own reverse, gives the tree back. */
  lemma {:induction false} ReverseWritesRestore(files: Files, edits: seq<Edit>)
    requires Readable(files, edits) && PairwiseApart(edits) && forall e | e in edits :: LandsIn(files, e)
    ensures Readable(WriteAll(files, edits), Orient(edits, true))
    ensures WriteAll(WriteAll(files, edits), Orient(edits, true)) == files
    decreases |edits|
  {
    OrientedReadable(WriteAll(files, edits), edits, true);
    if edits != [] {
      var e, rest := edits[0], edits[1..];
      var first := WriteEdit(files, e);
      TailIsApart(edits);
      RestIsApart(edits);
      ReversedIsApart(rest, e);
      RunCommutes(first, rest, Oriented(e, true));
      UndoneWrite(files, e);
      ReverseWritesRestore(files, rest);
      assert Orient(edits, true)[1..] == Orient(rest, true);
    }
  }

  lemma {:induction false} AllPending(files: Files, edits: seq<Edit>)
    requires Readable(files, edits) && forall e | e in edits :: StateOf(files, e) == Pending
    ensures PendingEdits(files, edits) == edits
  {
    if edits != [] {
      AllPending(files, edits[1..]);
      assert edits[0] in edits && edits == [edits[0]] + edits[1..];
    }
  }

  /** From a tree where everything was pending, the reverse run finds everything pending again and restores the tree. */
  lemma ReverseRunRestores(files: Files, edits: seq<Edit>)
    requires Readable(files, edits) && PairwiseApart(edits)
    requires forall e | e in edits :: StateOf(files, e) == Pending && LandsIn(files, e)
    ensures PendingEdits(files, edits) == edits
    ensures var after := WriteAll(files, edits);
            && Readable(after, Orient(edits, true))
            && PendingEdits(after, Orient(edits, true)) == Orient(edits, true)
            && WriteAll(after, Orient(edits, true)) == files
  {
    var after := WriteAll(files, edits);
    AllPending(files, edits);
    ReverseWritesRestore(files, edits);
    forall e | e in Orient(edits, true)
      ensures StateOf(after, e) == Pending
    {
      var i :| 0 <= i < |edits| && Orient(edits, true)[i] == e;
      assert edits[i] in edits;
      RunLands(files, edits, edits[i]);
    }
    AllPending(after, Orient(edits, true));
  }
}
