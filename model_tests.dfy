/** The concrete scenarios of the project's unit tests, stated on the model. */
module ModelTests {
  import opened BinaryStrings
  import opened Boards
  import opened Completeness
  import opened Uniqueness

  /** The six boards of the rank-filter scenario: four with a full rank and
      three empty ones, then two with a queen on every rank. */
  function RankScenario(): seq<Board> {
    [["1111", "0000", "0000", "0000"], ["0000", "1111", "0000", "0000"],
     ["0000", "0000", "1111", "0000"], ["0000", "0000", "0000", "1111"],
     ["1000", "1000", "1000", "1000"], ["0001", "0001", "0001", "0001"]]
  }

  /** The number of queens on the ranks of the scenarios. */
  lemma RankCounts()
    ensures PopCount("0000") == 0 && PopCount("1111") == 4
    ensures PopCount("1000") == 1 && PopCount("0100") == 1
    ensures PopCount("0010") == 1 && PopCount("0001") == 1
  {
    PopCountAppend("1", "000");
    assert "1" + "000" == "1000";
    PopCountAppend("01", "00");
    assert "01" + "00" == "0100";
    PopCountAppend("001", "0");
    assert "001" + "0" == "0010";
  }

  /** The columns read off the ranks of the scenarios; an empty rank reads -1. */
  lemma RankColumns()
    ensures QueenColumn("0000") == -1 && QueenColumn("1111") == 0
    ensures QueenColumn("1000") == 0 && QueenColumn("0100") == 1
    ensures QueenColumn("0010") == 2 && QueenColumn("0001") == 3
  {
  }

  /** The rank filter keeps only the last two boards, although they stack all
      their queens in one column: the rank test looks at nothing else. */
  lemma RankFilterScenario()
    ensures Filter(HasOneQueenPerRank, RankScenario())
         == [["1000", "1000", "1000", "1000"], ["0001", "0001", "0001", "0001"]]
  {
    var bs := RankScenario();
    RankCounts();
    assert PopCount(bs[0][0]) == 4 && PopCount(bs[1][0]) == 0;
    assert PopCount(bs[2][0]) == 0 && PopCount(bs[3][0]) == 0;
    assert HasOneQueenPerRank(bs[4]) && HasOneQueenPerRank(bs[5]);
  }

  /** The two solutions of the 4 by 4 puzzle, drawn as boards. */
  function SolutionBoards(): seq<Board> {
    [["0100", "0001", "1000", "0010"], ["0010", "1000", "0001", "0100"]]
  }

  /** The six boards of the column-and-diagonal scenario. */
  function DiagonalScenario(): seq<Board> {
    [["1111", "0000", "0000", "0000"], ["0000", "1111", "0000", "0000"],
     ["0000", "0000", "1111", "0000"], ["0000", "0000", "0000", "1111"]]
    + SolutionBoards()
  }

  /** The column and diagonal filter keeps only the two solution boards: in
      each of the others two empty ranks read as column -1 and collide. */
  lemma DiagonalFilterScenario()
    ensures Filter(NonAttacking, DiagonalScenario()) == SolutionBoards()
  {
    var bs := DiagonalScenario();
    FullRankBoardsAttack();
    SolutionBoardsSafe();
    assert bs == bs[..4] + SolutionBoards();
    FilterAppend(NonAttacking, bs[..4], SolutionBoards());
    FilterAllKept(NonAttacking, SolutionBoards());
  }

  /** In each board with a full rank, two empty ranks share column -1. */
  lemma FullRankBoardsAttack()
    ensures forall k :: 0 <= k < 4 ==> !NonAttacking(DiagonalScenario()[k])
    ensures Filter(NonAttacking, DiagonalScenario()[..4]) == []
  {
    var bs := DiagonalScenario();
    RankColumns();
    assert Attack(bs[0], 1, 2) && Attack(bs[1], 2, 3);
    assert Attack(bs[2], 0, 1) && Attack(bs[3], 0, 1);
  }

  /** Neither solution board has two queens on a column or a diagonal. */
  lemma SolutionBoardsSafe()
    ensures forall k :: 0 <= k < 2 ==> NonAttacking(SolutionBoards()[k])
  {
    SolutionBoardSafe(0);
    SolutionBoardSafe(1);
  }

  /** A board whose ranks read as the columns of a solution attacks nowhere. */
  lemma SafeByColumns(b: Board, c: seq<int>)
    requires |b| == |c| && IsSolution(c, |c|)
    requires forall r :: 0 <= r < |b| ==> QueenColumn(b[r]) == c[r]
    ensures NonAttacking(b)
  {
  }

  /** The two 4 by 4 placements read off the solution boards solve the puzzle. */
  lemma FourSolutions()
    ensures IsSolution([1, 3, 0, 2], 4) && IsSolution([2, 0, 3, 1], 4)
  {
    FourSolution([1, 3, 0, 2]);
    FourSolution([2, 0, 3, 1]);
  }

  /** A 4-queens placement checked pair of rows by pair of rows. */
  lemma FourSolution(p: seq<int>)
    requires p == [1, 3, 0, 2] || p == [2, 0, 3, 1]
    ensures IsSolution(p, 4)
  {
    forall i, j | 0 <= i < j < 4
      ensures p[i] != p[j] && Abs(p[i] - p[j]) != j - i
    {
      if i == 0 {
        if j == 1 {
        } else if j == 2 {
        } else {
        }
      } else if i == 1 {
        if j == 2 {
        } else {
        }
      }
    }
  }

  /** One solution board attacks nowhere. */
  lemma SolutionBoardSafe(k: nat)
    requires k < 2
    ensures NonAttacking(SolutionBoards()[k])
  {
    var b := SolutionBoards()[k];
    SolutionBoardsPlacements();
    FourSolutions();
    SafeByColumns(b, Placement(b, 4));
  }

  /** The queen columns of the two solution boards. */
  lemma SolutionBoardsPlacements()
    ensures Placement(SolutionBoards()[0], 4) == [1, 3, 0, 2]
    ensures Placement(SolutionBoards()[1], 4) == [2, 0, 3, 1]
  {
    RankColumns();
  }

  /** Reformatting the two solution boards gives the queen columns
      [1, 3, 0, 2] and [2, 0, 3, 1]. */
  lemma ReformatScenario()
    ensures Reformatted(SolutionBoards()) == [[1, 3, 0, 2], [2, 0, 3, 1]]
  {
    SolutionBoardsPlacements();
  }

  /** A placement of four non-attacking queens is one of the two above. */
  lemma FourQueensOnly(p: seq<int>)
    requires IsSolution(p, 4)
    ensures p == [1, 3, 0, 2] || p == [2, 0, 3, 1]
  {
    var a, b, c, d := p[0], p[1], p[2], p[3];
    assert 0 <= a < 4 && 0 <= b < 4 && 0 <= c < 4 && 0 <= d < 4;
    assert a != b && Abs(a - b) != 1 && a != c && Abs(a - c) != 2;
    assert a != d && Abs(a - d) != 3;
    assert b != c && Abs(b - c) != 1 && b != d && Abs(b - d) != 2;
    assert c != d && Abs(c - d) != 1;
    assert p == [a, b, c, d];
  }

  /** For n = 4 the solution list holds exactly [1, 3, 0, 2] and [2, 0, 3, 1]. */
  lemma FourQueensOutput()
    ensures forall p :: p in BruteForceSolutions(4) <==> p == [1, 3, 0, 2] || p == [2, 0, 3, 1]
  {
    forall p
      ensures p in BruteForceSolutions(4) <==> p == [1, 3, 0, 2] || p == [2, 0, 3, 1]
    {
      SolutionsExact(p, 4);
      FourSolutions();
      if IsSolution(p, 4) {
        FourQueensOnly(p);
      }
    }
  }

  /** A list without duplicates that holds exactly two solutions, sorted by
      the numbers their boards spell, lists first the one whose first-rank
      queen stands further right. */
  lemma TwoSolutionsSorted(sols: seq<seq<int>>, first: seq<int>, second: seq<int>, n: nat)
    requires n >= 1 && IsSolution(first, n) && IsSolution(second, n)
    requires first[0] > second[0]
    requires forall p :: p in sols <==> p == first || p == second
    requires NoDuplicates(sols)
    requires forall a, b :: 0 <= a < b < |sols| ==>
      IsSolution(sols[a], n) && IsSolution(sols[b], n)
      && Key(BoardOf(sols[a], n)) < Key(BoardOf(sols[b], n))
    ensures sols == [first, second]
  {
    assert first in sols && second in sols;
    var i :| 0 <= i < |sols| && sols[i] == first;
    var j :| 0 <= j < |sols| && sols[j] == second;
    FirstRankOrder(first, second, n);
    assert i < j;
    TwoInPlace(sols, first, second, i, j);
  }

  /** A list without duplicates that holds exactly x and y, x before y, is
      [x, y]. */
  lemma TwoInPlace<T>(s: seq<T>, x: T, y: T, i: nat, j: nat)
    requires forall e :: e in s <==> e == x || e == y
    requires NoDuplicates(s)
    requires i < j < |s| && s[i] == x && s[j] == y
    ensures s == [x, y]
  {
    assert s[0] in s && s[1] in s && s[|s| - 1] in s;
    assert i == 0;
    assert j == 1;
    assert |s| - 1 == j;
  }

  /** For n = 4 the run stores [2, 0, 3, 1] and then [1, 3, 0, 2], and
      nothing else: the boards are generated in increasing numeric order,
      and the first spells 10260 where the second spells 16770. */
  lemma FourQueensInOrder()
    ensures BruteForceSolutions(4) == [[2, 0, 3, 1], [1, 3, 0, 2]]
    ensures |BruteForceSolutions(4)| == 2
  {
    FourQueensOutput();
    SolutionsDistinct(4);
    SolutionsOrdered(4);
    FourSolutions();
    TwoSolutionsSorted(BruteForceSolutions(4), [2, 0, 3, 1], [1, 3, 0, 2], 4);
  }
}
