/** The brute-force solver object: it generates every board with n queens,
    removes the boards that break a rule, and keeps the queen columns of the
    boards that are left in its solution list. */
module BruteForce {
  import opened BinaryStrings
  import opened Boards
  import opened Lists

  /** invalid lists, in increasing order and each once, exactly the positions
      below bound whose board keep rejects. */
  ghost predicate RecordsRejected(invalid: seq<nat>, s: seq<Board>, keep: Board -> bool, bound: nat)
    requires bound <= |s|
  {
    (forall a, b :: 0 <= a < b < |invalid| ==> invalid[a] < invalid[b])
    && (forall t :: 0 <= t < |invalid| ==> invalid[t] < bound && !keep(s[invalid[t]]))
    && (forall i :: 0 <= i < bound && !keep(s[i]) ==> i in invalid)
  }

  /** Scanning one more board: a rejected board's position is recorded after
      the others, an accepted board's is not. */
  lemma RecordsStep(invalid: seq<nat>, s: seq<Board>, keep: Board -> bool, i: nat, next: seq<nat>)
    requires i < |s| && RecordsRejected(invalid, s, keep, i)
    requires next == if keep(s[i]) then invalid else invalid + [i]
    ensures RecordsRejected(next, s, keep, i + 1)
  {
  }

  /** What the list holds once the recorded boards from position c on have
      been removed: s up to c, then the accepted boards of the rest. */
  lemma RemovalStep(s: seq<Board>, keep: Board -> bool, c: nat, j: nat)
    requires c <= j < |s| && !keep(s[j])
    requires forall i :: c <= i < j ==> keep(s[i])
    ensures s[..j] + Filter(keep, s[j + 1..]) == s[..c] + Filter(keep, s[c..])
  {
    var front, mid, rest := s[..c], s[c..j], s[j + 1..];
    var kept := Filter(keep, rest);
    assert s[c..] == mid + ([s[j]] + rest);
    FilterPastRejected(keep, mid, s[j], rest);
    assert s[..j] == front + mid;
    assert front + (mid + kept) == (front + mid) + kept;
  }

  /** Accepted boards, then a rejected one, then the rest: the filter keeps
      the accepted boards and drops the rejected one. */
  lemma FilterPastRejected(keep: Board -> bool, mid: seq<Board>, x: Board, rest: seq<Board>)
    requires forall k :: 0 <= k < |mid| ==> keep(mid[k])
    requires !keep(x)
    ensures Filter(keep, mid + ([x] + rest)) == mid + Filter(keep, rest)
  {
    var tail := [x] + rest;
    FilterAppend(keep, [x], rest);
    assert Filter(keep, [x]) == [] by {
      assert [x][1..] == [];
    }
    assert Filter(keep, tail) == Filter(keep, rest);
    FilterAppend(keep, mid, tail);
    FilterAllKept(keep, mid);
  }

  /** Where the untouched front of the list ends once the recorded positions
      after index t have been removed: just past position invalid[t], or the
      whole list when t is -1. */
  function Cut(invalid: seq<nat>, t: int): nat
    requires -1 <= t < |invalid|
  {
    if t < 0 then 0 else invalid[t] + 1
  }

  /** No board strictly between two consecutive recorded positions is rejected. */
  lemma KeptBetween(s: seq<Board>, keep: Board -> bool, invalid: seq<nat>, t: nat, i: nat)
    requires RecordsRejected(invalid, s, keep, |s|)
    requires t < |invalid| && Cut(invalid, t - 1) <= i < invalid[t]
    ensures keep(s[i])
  {
    forall u | 0 <= u < |invalid|
      ensures invalid[u] != i
    {
      if u < t {
        assert invalid[u] <= invalid[t - 1];
      } else {
        assert invalid[u] >= invalid[t];
      }
    }
    assert i !in invalid;
  }

  /** Before any removal, the list is its front up to the last recorded
      position followed by the rest, all of which is accepted. */
  lemma RemovalStart(s: seq<Board>, keep: Board -> bool, invalid: seq<nat>)
    requires RecordsRejected(invalid, s, keep, |s|)
    ensures Cut(invalid, |invalid| - 1) <= |s|
    ensures s == s[..Cut(invalid, |invalid| - 1)] + Filter(keep, s[Cut(invalid, |invalid| - 1)..])
  {
    var c := Cut(invalid, |invalid| - 1);
    forall i | c <= i < |s|
      ensures keep(s[i])
    {
      forall u | 0 <= u < |invalid|
        ensures invalid[u] < c
      {
        assert invalid[u] <= invalid[|invalid| - 1];
      }
      assert i !in invalid;
    }
    FilterAllKept(keep, s[c..]);
    assert s == s[..c] + s[c..];
  }

  /** Removing the board at recorded position invalid[t] moves the cut back to
      the previous recorded position. */
  lemma RemovalNext(s: seq<Board>, keep: Board -> bool, invalid: seq<nat>, t: nat)
    requires RecordsRejected(invalid, s, keep, |s|)
    requires t < |invalid|
    ensures Cut(invalid, t - 1) <= invalid[t] < |s|
    ensures var j, e := invalid[t], s[..Cut(invalid, t)] + Filter(keep, s[Cut(invalid, t)..]);
      j < |e| && e[..j] + e[j + 1..] == s[..Cut(invalid, t - 1)] + Filter(keep, s[Cut(invalid, t - 1)..])
  {
    var j, c := invalid[t], Cut(invalid, t - 1);
    if t > 0 {
      assert invalid[t - 1] < invalid[t];
    }
    forall i | c <= i < j
      ensures keep(s[i])
    {
      KeptBetween(s, keep, invalid, t, i);
    }
    var e := s[..j + 1] + Filter(keep, s[j + 1..]);
    assert e[..j] == s[..j];
    assert e[j + 1..] == Filter(keep, s[j + 1..]);
    RemovalStep(s, keep, c, j);
  }

  /** Removes the recorded boards, walking the recorded positions from the
      last to the first, so that each position still names the board it was
      recorded for. The boards removed are exactly the recorded ones, and the
      others keep their order. */
  method RemoveRecorded(list: ArrayList<Board>, invalidBoardsList: seq<nat>, ghost keep: Board -> bool)
    requires RecordsRejected(invalidBoardsList, list.elems, keep, |list.elems|)
    modifies list
    ensures list.elems == Filter(keep, old(list.elems))
  {
    ghost var s := list.elems;
    RemovalStart(s, keep, invalidBoardsList);
    var currentIndex := |invalidBoardsList| - 1;
    while currentIndex >= 0
      invariant -1 <= currentIndex < |invalidBoardsList|
      invariant Cut(invalidBoardsList, currentIndex) <= |s|
      invariant list.elems == s[..Cut(invalidBoardsList, currentIndex)]
                              + Filter(keep, s[Cut(invalidBoardsList, currentIndex)..])
    {
      var invalidBoardIndex := invalidBoardsList[currentIndex];
      RemovalNext(s, keep, invalidBoardsList, currentIndex);
      var _ := list.Remove(invalidBoardIndex);
      currentIndex := currentIndex - 1;
    }
    assert s[..0] == [] && s[0..] == s;
  }

  /** The contents of a list of int arrays, one sequence per array. */
  ghost function Contents(arrays: seq<array<int>>): seq<seq<int>>
    reads arrays
  {
    seq(|arrays|, k requires 0 <= k < |arrays| reads arrays => arrays[k][..])
  }

  /** A list whose front holds the stored arrays unchanged and whose last
      array is a copy of a: its contents are the saved ones followed by a's. */
  lemma StoredUnchanged(saved: seq<seq<int>>, e: seq<array<int>>, a: array<int>)
    requires |e| == |saved| + 1
    requires forall k :: 0 <= k < |saved| ==> e[k][..] == saved[k]
    requires e[|saved|][..] == a[..]
    ensures Contents(e) == saved + [a[..]]
  {
  }

  class BruteForceModel {
    /** The solutions found by the last run, one array of queen columns per
        solution; null until a run or a setter call stores a list. */
    var solutionsList: ArrayList?<array<int>>

    constructor ()
      ensures solutionsList == null
    {
      solutionsList := null;
    }

    /** The queen columns held in the solution list. */
    ghost function Solutions(): seq<seq<int>>
      requires solutionsList != null
      reads this, solutionsList, solutionsList.elems
    {
      Contents(solutionsList.elems)
    }

    method GetSolutionsList() returns (list: ArrayList?<array<int>>)
      ensures list == solutionsList
    {
      list := solutionsList;
    }

    /** Stores a reference to the given list; later additions go into it. */
    method SetSolutionsList(list: ArrayList?<array<int>>)
      modifies this
      ensures solutionsList == list
    {
      solutionsList := list;
    }

    /** Runs the four stages for an n by n board and leaves the solutions in a
        new solution list. The result depends on n alone, so a second run gives
        the same list again. */
    method BruteForceApproach(chosenNumOfQueens: nat)
      requires chosenNumOfQueens <= 5
      modifies this
      ensures solutionsList != null && fresh(solutionsList)
      ensures Solutions() == BruteForceSolutions(chosenNumOfQueens)
      ensures NoDuplicates(solutionsList.elems)
      ensures forall k :: 0 <= k < |solutionsList.elems| ==> fresh(solutionsList.elems[k])
    {
      var tempSolutionsList := new ArrayList<Board>();
      tempSolutionsList := GenerateAllCombinations(chosenNumOfQueens, tempSolutionsList);
      assert tempSolutionsList.elems == Candidates(chosenNumOfQueens);
      tempSolutionsList := OneQueenPerRank(tempSolutionsList);
      tempSolutionsList := OneQueenPerColumnAndDiagonal(tempSolutionsList);
      assert tempSolutionsList.elems == Survivors(chosenNumOfQueens);
      SolutionsSound(chosenNumOfQueens);
      ReformatTempSolutionList(tempSolutionsList);
    }

    /** Appends to the list, in ascending order of i over 1 .. 2^(n*n), the
        candidate of every i whose binary numeral has exactly n ones, and
        returns the same list. What the list held before stays in front. */
    method GenerateAllCombinations(chosenNumOfQueens: nat, tempSolutionsList: ArrayList<Board>)
      returns (result: ArrayList<Board>)
      requires chosenNumOfQueens <= 5
      modifies tempSolutionsList
      ensures result == tempSolutionsList
      ensures result.elems == old(tempSolutionsList.elems) + Candidates(chosenNumOfQueens)
    {
      var n := chosenNumOfQueens;
      for i := 1 to Pow2(n * n) + 1
        invariant tempSolutionsList.elems == old(tempSolutionsList.elems) + CandidatesUpTo(n, i - 1)
      {
        var binaryString := Binary(i);
        var queensPerBoard := PopCount(binaryString);
        if queensPerBoard != n {
          continue;
        }
        var leadingZeroes := n * n;
        binaryString := PadLeft(binaryString, leadingZeroes);
        var nonVerifiedSolution := Chunk(binaryString, n);
        tempSolutionsList.Add(nonVerifiedSolution);
      }
      result := tempSolutionsList;
    }

    /** Removes, in place, every board with a rank that does not hold exactly
        one queen; the remaining boards keep their order. Returns the same list. */
    method OneQueenPerRank(tempSolutionsList: ArrayList<Board>) returns (result: ArrayList<Board>)
      modifies tempSolutionsList
      ensures result == tempSolutionsList
      ensures result.elems == Filter(HasOneQueenPerRank, old(tempSolutionsList.elems))
    {
      var invalidBoardsList: seq<nat> := [];
      // the list does not change while it is scanned
      var size := tempSolutionsList.Size();
      for currentBoard := 0 to size
        invariant tempSolutionsList.elems == old(tempSolutionsList.elems) && size == |tempSolutionsList.elems|
        invariant RecordsRejected(invalidBoardsList, tempSolutionsList.elems, HasOneQueenPerRank, currentBoard)
      {
        var board := tempSolutionsList.Get(currentBoard);
        ghost var before := invalidBoardsList;
        for currentRank := 0 to |board|
          invariant invalidBoardsList == before
          invariant forall r :: 0 <= r < currentRank ==> PopCount(board[r]) == 1
        {
          var queensPerRank := PopCount(board[currentRank]);
          if queensPerRank != 1 {
            invalidBoardsList := invalidBoardsList + [currentBoard];
            break;
          }
        }
        RecordsStep(before, tempSolutionsList.elems, HasOneQueenPerRank, currentBoard, invalidBoardsList);
      }
      RemoveRecorded(tempSolutionsList, invalidBoardsList, HasOneQueenPerRank);
      result := tempSolutionsList;
    }

    /** Removes, in place, every board in which two ranks, adjacent or not,
        have their first queen in the same column or on the same diagonal; the
        remaining boards keep their order. Returns the same list. */
    method OneQueenPerColumnAndDiagonal(tempSolutionsList: ArrayList<Board>) returns (result: ArrayList<Board>)
      modifies tempSolutionsList
      ensures result == tempSolutionsList
      ensures result.elems == Filter(NonAttacking, old(tempSolutionsList.elems))
    {
      var invalidBoardsList: seq<nat> := [];
      // the list does not change while it is scanned
      var size := tempSolutionsList.Size();
      for boardIndex := 0 to size
        invariant tempSolutionsList.elems == old(tempSolutionsList.elems) && size == |tempSolutionsList.elems|
        invariant RecordsRejected(invalidBoardsList, tempSolutionsList.elems, NonAttacking, boardIndex)
      {
        var currentBoard := tempSolutionsList.Get(boardIndex);
        ghost var before := invalidBoardsList;
        var upperRank := 0;
        while upperRank < |currentBoard|
          invariant 0 <= upperRank <= |currentBoard| + 1
          invariant upperRank <= |currentBoard| ==> invalidBoardsList == before
          invariant upperRank <= |currentBoard| ==>
            forall i, j :: 0 <= i < upperRank && i < j < |currentBoard| ==> !Attack(currentBoard, i, j)
          invariant upperRank > |currentBoard| ==>
            invalidBoardsList == before + [boardIndex] && !NonAttacking(currentBoard)
        {
          var queenPosition := QueenColumn(currentBoard[upperRank]);
          var lowerRank := upperRank + 1;
          while lowerRank < |currentBoard|
            invariant upperRank < lowerRank <= |currentBoard|
            invariant invalidBoardsList == before
            invariant forall j :: upperRank < j < lowerRank ==> !Attack(currentBoard, upperRank, j)
          {
            var secondQueenPosition := QueenColumn(currentBoard[lowerRank]);
            if queenPosition == secondQueenPosition
               || Abs(queenPosition - secondQueenPosition) == Abs(upperRank - lowerRank)
            {
              assert Attack(currentBoard, upperRank, lowerRank);
              invalidBoardsList := invalidBoardsList + [boardIndex];
              upperRank := |currentBoard|;
              break;
            }
            lowerRank := lowerRank + 1;
          }
          upperRank := upperRank + 1;
        }
        RecordsStep(before, tempSolutionsList.elems, NonAttacking, boardIndex, invalidBoardsList);
      }
      RemoveRecorded(tempSolutionsList, invalidBoardsList, NonAttacking);
      result := tempSolutionsList;
    }

    /** Starts a new solution list and stores in it, in list order, the queen
        columns of every board, each read over as many ranks as the first board
        has. The list stays empty when there are no boards. */
    method ReformatTempSolutionList(tempSolutionsList: ArrayList<Board>)
      requires tempSolutionsList.elems != [] ==>
        forall k :: 0 <= k < |tempSolutionsList.elems| ==> |tempSolutionsList.elems[0]| <= |tempSolutionsList.elems[k]|
      modifies this
      ensures solutionsList != null && fresh(solutionsList)
      ensures Solutions() == Reformatted(tempSolutionsList.elems)
      ensures NoDuplicates(solutionsList.elems)
      ensures forall k :: 0 <= k < |solutionsList.elems| ==> fresh(solutionsList.elems[k])
    {
      var newList := new ArrayList<array<int>>();
      SetSolutionsList(newList);
      var size := tempSolutionsList.Size();
      if size < 1 {
        return;
      }
      var firstBoard := tempSolutionsList.Get(0);
      var chosenNumOfQueens := |firstBoard|;
      ghost var boards := tempSolutionsList.elems;
      for b := 0 to size
        invariant solutionsList == newList && tempSolutionsList.elems == boards
        invariant Solutions() == Placements(boards[..b], chosenNumOfQueens)
        invariant NoDuplicates(newList.elems)
        invariant forall k :: 0 <= k < |newList.elems| ==> fresh(newList.elems[k])
      {
        var currentBoard := tempSolutionsList.Get(b);
        var solutionArray := QueenColumns(currentBoard, chosenNumOfQueens);
        ghost var saved, stored := Solutions(), newList.elems;
        SaveValidSolution(solutionArray);
        ghost var added := newList.elems[|stored|];
        assert newList.elems == stored + [added];
        StoredUnchanged(saved, newList.elems, solutionArray);
        assert added !in stored;
        NoDuplicatesSnoc(stored, added);
        assert boards[..b + 1] == boards[..b] + [currentBoard];
        PlacementsSnoc(boards[..b], currentBoard, chosenNumOfQueens);
      }
      assert boards[..size] == boards;
    }

    /** A new array holding the queen column of each of the first
        chosenNumOfQueens ranks of the board (the body of the reformatting loop). */
    method QueenColumns(currentBoard: Board, chosenNumOfQueens: nat) returns (solutionArray: array<int>)
      requires chosenNumOfQueens <= |currentBoard|
      ensures fresh(solutionArray)
      ensures solutionArray[..] == Placement(currentBoard, chosenNumOfQueens)
    {
      solutionArray := new int[chosenNumOfQueens];
      for currentRank := 0 to solutionArray.Length
        invariant forall r :: 0 <= r < currentRank ==> solutionArray[r] == QueenColumn(currentBoard[r])
      {
        solutionArray[currentRank] := QueenColumn(currentBoard[currentRank]);
      }
    }

    /** Appends a fresh copy of the array to the solution list, so that later
        changes to the argument do not reach the stored solution. */
    method SaveValidSolution(solutionArray: array<int>)
      requires solutionsList != null
      modifies solutionsList
      ensures |solutionsList.elems| == |old(solutionsList.elems)| + 1
      ensures solutionsList.elems[..|old(solutionsList.elems)|] == old(solutionsList.elems)
      ensures fresh(solutionsList.elems[|old(solutionsList.elems)|])
      ensures solutionsList.elems[|old(solutionsList.elems)|][..] == solutionArray[..]
    {
      var boardResult := new int[solutionArray.Length];
      forall k | 0 <= k < solutionArray.Length {
        boardResult[k] := solutionArray[k];
      }
      var list := GetSolutionsList();
      list.Add(boardResult);
    }
  }
}
