/**
 A list cut at marked blocks: the gaps around them, the blocks, and their alternation.
 With one-element blocks as marks, the cut can be recovered from the whole list exactly
 when no gap contains a mark that borders it.
 */
module Weaving {

  /** gaps[0] + blocks[0] + gaps[1] + ... + gaps[k]. */
  function Weave<T>(gaps: seq<seq<T>>, blocks: seq<seq<T>>): seq<T>
    requires |gaps| == |blocks| + 1
  {
    if blocks == [] then gaps[0] else gaps[0] + blocks[0] + Weave(gaps[1..], blocks[1..])
  }

  function Marks<T>(marks: seq<T>): (blocks: seq<seq<T>>)
    ensures |blocks| == |marks|
  {
    if marks == [] then [] else [[marks[0]]] + Marks(marks[1..])
  }

  function Masked<T>(gaps: seq<seq<T>>, marks: seq<T>): seq<T>
    requires |gaps| == |marks| + 1
  {
    Weave(gaps, Marks(marks))
  }

  lemma MaskedUnfold<T>(gaps: seq<seq<T>>, marks: seq<T>)
    requires |gaps| == |marks| + 1
    ensures marks == [] ==> Masked(gaps, marks) == gaps[0]
    ensures marks != [] ==> Masked(gaps, marks) == gaps[0] + [marks[0]] + Masked(gaps[1..], marks[1..])
  {
    if marks != [] {
      assert Marks(marks)[1..] == Marks(marks[1..]);
    }
  }

  /** No gap contains the mark before it or the mark after it. */
  ghost predicate BordersFree<T>(gaps: seq<seq<T>>, marks: seq<T>)
    requires |gaps| == |marks| + 1
  {
    && (forall j | 0 <= j < |marks| :: marks[j] !in gaps[j])
    && (forall j | 0 <= j < |marks| :: marks[j] !in gaps[j + 1])
  }

  lemma BordersFreeTail<T>(gaps: seq<seq<T>>, marks: seq<T>)
    requires |gaps| == |marks| + 1 && marks != [] && BordersFree(gaps, marks)
    ensures BordersFree(gaps[1..], marks[1..])
  {
    forall j | 0 <= j < |marks[1..]|
      ensures marks[1..][j] !in gaps[1..][j] && marks[1..][j] !in gaps[1..][j + 1]
    {
      assert marks[j + 1] !in gaps[j + 1] && marks[j + 1] !in gaps[j + 2];
    }
  }

  /** A second cut of the same list can never lag behind: its late mark would lie in a gap of the first. */
  lemma {:induction false} NoLag<T>(gaps: seq<seq<T>>, marks: seq<T>, y: seq<T>, prev: T, other: seq<seq<T>>)
    requires |gaps| == |other| == |marks| + 1
    requires BordersFree(gaps, marks) && prev !in gaps[0]
    ensures Masked(gaps, marks) != y + [prev] + Masked(other, marks)
    decreases |marks|
  {
    var whole := y + [prev] + Masked(other, marks);
    if Masked(gaps, marks) == whole {
      MaskedUnfold(gaps, marks);
      MaskedUnfold(other, marks);
      assert whole[|y|] == prev;
      if marks == [] {
        assert false;
      } else {
        var g := |gaps[0]|;
        assert Masked(gaps, marks)[g + 1..] == Masked(gaps[1..], marks[1..]);
        var rest := Masked(other[1..], marks[1..]);
        assert whole == y + [prev] + other[0] + [marks[0]] + rest;
        if |y| < g {
          assert false;
        } else if |y| == g {
          assert whole[g + 1..] == other[0] + [marks[0]] + rest;
          BordersFreeTail(gaps, marks);
          NoLag(gaps[1..], marks[1..], other[0], marks[0], other[1..]);
        } else {
          var y' := y[g + 1..] + [prev] + other[0];
          assert whole[g + 1..] == y' + [marks[0]] + rest;
          BordersFreeTail(gaps, marks);
          NoLag(gaps[1..], marks[1..], y', marks[0], other[1..]);
        }
      }
    }
  }

  /** Free borders determine the cut. */
  lemma {:induction false} CutIsUnique<T>(gaps: seq<seq<T>>, other: seq<seq<T>>, marks: seq<T>)
    requires |gaps| == |other| == |marks| + 1
    requires BordersFree(gaps, marks) && Masked(gaps, marks) == Masked(other, marks)
    ensures gaps == other
    decreases |marks|
  {
    MaskedUnfold(gaps, marks);
    MaskedUnfold(other, marks);
    if marks == [] {
      assert gaps == [gaps[0]] && other == [other[0]];
    } else {
      var whole := Masked(gaps, marks);
      var g, o := |gaps[0]|, |other[0]|;
      assert whole[g + 1..] == Masked(gaps[1..], marks[1..]);
      assert whole[o + 1..] == Masked(other[1..], marks[1..]);
      BordersFreeTail(gaps, marks);
      assert whole[o] == marks[0];
      if o < g {
        assert false;
      } else if g < o {
        assert whole[g + 1..] == other[0][g + 1..] + [marks[0]] + Masked(other[1..], marks[1..]);
        NoLag(gaps[1..], marks[1..], other[0][g + 1..], marks[0], other[1..]);
      } else {
        assert gaps[0] == whole[..g] && other[0] == whole[..g];
        CutIsUnique(gaps[1..], other[1..], marks[1..]);
        assert gaps == [gaps[0]] + gaps[1..] && other == [other[0]] + other[1..];
      }
    }
  }

  /** Moving material across one mark leaves the whole list alone. */
  lemma {:induction false} MoveAcrossMark<T>(gaps: seq<seq<T>>, marks: seq<T>, j: nat, a: seq<T>, b: seq<T>)
    requires |gaps| == |marks| + 1 && j < |marks|
    requires a + [marks[j]] + b == gaps[j] + [marks[j]] + gaps[j + 1]
    ensures Masked(gaps[j := a][j + 1 := b], marks) == Masked(gaps, marks)
    decreases j
  {
    var moved := gaps[j := a][j + 1 := b];
    if j > 0 {
      MaskedUnfold(gaps, marks);
      MaskedUnfold(moved, marks);
      assert moved[1..] == gaps[1..][j - 1 := a][j := b];
      MoveAcrossMark(gaps[1..], marks[1..], j - 1, a, b);
    } else {
      MaskedUnfoldTwice(gaps, marks);
      MaskedUnfoldTwice(moved, marks);
      assert moved[2..] == gaps[2..];
    }
  }

  /** What follows the second gap. */
  function AfterSecond<T>(gaps: seq<seq<T>>, marks: seq<T>): seq<T>
    requires |gaps| == |marks|
  {
    if marks == [] then [] else [marks[0]] + Masked(gaps, marks[1..])
  }

  lemma MaskedUnfoldTwice<T>(gaps: seq<seq<T>>, marks: seq<T>)
    requires |gaps| == |marks| + 1 && marks != []
    ensures Masked(gaps, marks) == (gaps[0] + [marks[0]] + gaps[1]) + AfterSecond(gaps[2..], marks[1..])
  {
    MaskedUnfold(gaps, marks);
    MaskedRest(gaps, marks);
    Regroup(gaps[0], [marks[0]], gaps[1], AfterSecond(gaps[2..], marks[1..]));
  }

  lemma MaskedRest<T>(gaps: seq<seq<T>>, marks: seq<T>)
    requires |gaps| == |marks| + 1 && marks != []
    ensures Masked(gaps[1..], marks[1..]) == gaps[1] + AfterSecond(gaps[2..], marks[1..])
  {
    var g, m := gaps[1..], marks[1..];
    MaskedUnfold(g, m);
    assert g[1..] == gaps[2..] && g[0] == gaps[1];
    if m == [] {
      assert gaps[1] + [] == gaps[1];
    } else {
      assert gaps[1] + [m[0]] + Masked(gaps[2..], m[1..]) == gaps[1] + ([m[0]] + Masked(gaps[2..], m[1..]));
    }
  }

  lemma Regroup<T>(a: seq<T>, b: seq<T>, c: seq<T>, d: seq<T>)
    ensures a + b + (c + d) == (a + b + c) + d
  {
  }

  /** A bordering mark inside a gap gives a second cut, built from the same elements. */
  lemma SecondCut<T(!new)>(gaps: seq<seq<T>>, marks: seq<T>) returns (other: seq<seq<T>>)
    requires |gaps| == |marks| + 1 && !BordersFree(gaps, marks)
    ensures |other| == |gaps| && other != gaps && Masked(other, marks) == Masked(gaps, marks)
  {
    if j :| 0 <= j < |marks| && marks[j] in gaps[j] {
      var t :| 0 <= t < |gaps[j]| && gaps[j][t] == marks[j];
      var a, b := gaps[j][..t], gaps[j][t + 1..] + [marks[j]] + gaps[j + 1];
      assert gaps[j] == gaps[j][..t] + [marks[j]] + gaps[j][t + 1..];
      MoveAcrossMark(gaps, marks, j, a, b);
      other := gaps[j := a][j + 1 := b];
      assert other[j] == a && |a| < |gaps[j]|;
    } else {
      var j :| 0 <= j < |marks| && marks[j] in gaps[j + 1];
      var t :| 0 <= t < |gaps[j + 1]| && gaps[j + 1][t] == marks[j];
      var a, b := gaps[j] + [marks[j]] + gaps[j + 1][..t], gaps[j + 1][t + 1..];
      assert gaps[j + 1] == gaps[j + 1][..t] + [marks[j]] + gaps[j + 1][t + 1..];
      MoveAcrossMark(gaps, marks, j, a, b);
      other := gaps[j := a][j + 1 := b];
      assert other[j + 1] == b && |b| < |gaps[j + 1]|;
    }
  }

  /** The exact condition under which masking loses nothing but the masked blocks. */
  lemma MaskDeterminesGapsIff<T(!new)>(gaps: seq<seq<T>>, marks: seq<T>)
    requires |gaps| == |marks| + 1
    ensures BordersFree(gaps, marks)
            <==> forall other: seq<seq<T>> | |other| == |gaps| && Masked(other, marks) == Masked(gaps, marks) ::
              other == gaps
  {
    if BordersFree(gaps, marks) {
      forall other: seq<seq<T>> | |other| == |gaps| && Masked(other, marks) == Masked(gaps, marks)
        ensures other == gaps
      {
        CutIsUnique(gaps, other, marks);
      }
    } else {
      var other := SecondCut(gaps, marks);
    }
  }
}
