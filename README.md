# Brute-force N-Queens solver, modelled in Dafny

The brute-force model of the N-Queens desktop application finds every way to
place n queens on an n by n board so that no two of them attack each other.
It works in four stages over a shared list of boards:

1. **Generation.** For every integer i from 1 to 2^(n*n), the binary numeral
   of i is kept when it has exactly n ones. It is padded on the left with
   zeros to n*n digits and cut into n ranks (rows) of n digits each. A '1'
   marks a queen.
2. **Rank filter.** Every board is removed that has a rank without exactly
   one queen.
3. **Column and diagonal filter.** Every board is removed in which two ranks
   have their first queen in the same column or on the same diagonal.
4. **Reformatting.** Each remaining board becomes an `int[]` of queen columns,
   one per rank. A copy of it goes into the object's solution list.

The Dafny project has one module per file:

- `binary.dfy` (`BinaryStrings`) holds the string operations the stages use:
  - `Binary` is `Integer.toBinaryString`.
  - `PopCount` counts the '1' characters.
  - `PadLeft` is the `%ws` format with spaces turned into zeros.
  - `Chunk` is the split into pieces of n characters.
  - `IndexOf` is `String.indexOf`.
  - Their round trips are proved here.
- `counting.dfy` (`Counting`) proves that below 2^m exactly C(m, k) numbers
  have k one bits.
- `boards.dfy` (`Boards`) says what each stage computes, as functions on
  values:
  - `Candidates` is the generated list.
  - `Filter` with the tests `HasOneQueenPerRank` and `NonAttacking` gives the
    two filters.
  - `Reformatted` gives the solution list.
  - `IsSolution` is the puzzle's own notion of a solution, against which the
    pipeline is proved sound.
- `completeness.dfy` (`Completeness`) proves the converse: for n >= 1 every
  solution of the puzzle is in the list, so the list holds exactly the
  solutions.
- `uniqueness.dfy` (`Uniqueness`) proves that the list holds no placement
  twice. With completeness, every solution appears exactly once. It also
  proves that the list is sorted by the numbers the solutions' boards spell.
- `lists.dfy` (`Lists`) is the shared, mutable `ArrayList`.
- `brute_force_model.dfy` (`BruteForce`) is the solver object itself.
  - It is a class with the `solutionsList` field and the stages as methods
    that change the shared lists in place.
  - The methods keep the same loops, the same `continue` and `break`, and
    the same trick of ending the outer loop by setting `upperRank` to the
    board length.
  - Rejected indices are recorded first and then removed from the last one
    to the first.
  - Each method is proved against the function in `Boards` that specifies
    it.
- `model_tests.dfy` (`ModelTests`) restates the concrete scenarios of the
  unit tests, and gives the whole solution list for n = 4.

The generation loop runs up to and including 2^(n*n)
(`i <= Math.pow(2, n*n)`, `BruteForceModel.java:59`), one past the largest
n*n-digit numeral. For n = 1 this adds the candidate `["1", "0"]`, a board one rank too
tall (see `Boards.CandidatesOfOne`), which the rank filter then drops
(`Boards.RankSurvivorsOfOne`). For n >= 2 the extra number has a single one
bit and is never kept.

## Model

| member | source | states |
|---|---|---|
| BinaryStrings.PopCount | src/main/java/model/BruteForceModel.java:62 | the count of '1' characters is at most the length and is zero exactly when the string has no '1' |
| BinaryStrings.IndexOf | src/main/java/model/BruteForceModel.java:122 | the result is -1 exactly when the character is absent; otherwise it is a position holding the character with no earlier occurrence |
| BinaryStrings.Binary | src/main/java/model/BruteForceModel.java:61 | the numeral is a non-empty string of digits that starts with '1' exactly when the number is positive |
| BinaryStrings.BinaryRoundTrip | src/main/java/model/BruteForceModel.java:61 | reading the numeral back gives the number |
| BinaryStrings.PopCountBinary | src/main/java/model/BruteForceModel.java:61-62 | the '1' characters of the numeral are the one bits of the number |
| BinaryStrings.BinaryLength | src/main/java/model/BruteForceModel.java:59-61 | a positive number below 2^k has a numeral of at most k digits |
| BinaryStrings.PadLeftShape | src/main/java/model/BruteForceModel.java:66-67 | padding reaches the width (or leaves a longer string alone), keeps the digits at the right end and adds only zeros |
| BinaryStrings.PadLeftValue | src/main/java/model/BruteForceModel.java:66-67 | padding changes neither the value nor the number of ones |
| BinaryStrings.ValueBound | src/main/java/model/BruteForceModel.java:59-67 | a numeral of d digits stands for a number below 2^d |
| BinaryStrings.NumeralOfValue | src/main/java/model/BruteForceModel.java:61-67 | a digit string with a nonzero value is the padded numeral of its value (the inverse of toBinaryString plus padding) |
| BinaryStrings.Chunk | src/main/java/model/BruteForceModel.java:69 | the pieces are non-empty for a non-empty string, have at most k characters each, and put together give the string back |
| BinaryStrings.ChunkExact | src/main/java/model/BruteForceModel.java:69 | a string of m*k characters is cut into exactly m pieces of k characters |
| BinaryStrings.ChunkFlatten | src/main/java/model/BruteForceModel.java:69 | cutting pieces of k characters that were put together gives back the same pieces |
| Counting.CountBelowPow2 | src/main/java/model/BruteForceModel.java:59-64 | exactly C(m, k) numbers below 2^m have k one bits |
| Counting.CountOneToPow2 | src/main/java/model/BruteForceModel.java:59-64 | for k >= 2, exactly C(m, k) of the numbers 1 to 2^m (both included) have k one bits |
| Counting.ChooseFourOfSixteen | src/test/java/ModelTest.java:45-57 | C(16, 4) = 1820 |
| Boards.FilterMembers | src/main/java/model/BruteForceModel.java:99-102 | a board is left after a filter exactly when it was in the list and passes the test |
| Boards.FilterAppend | src/main/java/model/BruteForceModel.java:99-102 | filtering a concatenation filters each part, keeping the relative order |
| Boards.FilterIdempotent | src/main/java/model/BruteForceModel.java:84-105 | applying a filter twice leaves what applying it once leaves |
| Boards.CandidateRoundTrip | src/main/java/model/BruteForceModel.java:61-69 | for 1 <= i < 2^(n*n) the candidate is n ranks of n digits that put together spell i, padded to n*n digits, with the ones of i |
| Boards.CandidatesUpToShape | src/main/java/model/BruteForceModel.java:59-71 | for n >= 2 every generated board has n ranks of n characters |
| Boards.CandidatesOfZero | src/main/java/model/BruteForceModel.java:59-64 | for n = 0 nothing is generated |
| Boards.CandidatesOfOne | src/main/java/model/BruteForceModel.java:59-70 | for n = 1 the generated boards are ["1"] and ["1", "0"], the latter from the inclusive bound 2^1 |
| Boards.CandidateCount | src/main/java/model/BruteForceModel.java:59-71 | for n >= 2 there are C(n*n, n) generated boards |
| Boards.CandidateCountFour | src/test/java/ModelTest.java:45-57 | for n = 4 there are 1820 generated boards |
| Boards.RankSurvivorsOfOne | src/main/java/model/BruteForceModel.java:87-102 | for n = 1 the rank filter drops ["1", "0"] and keeps ["1"] |
| Boards.RankSurvivorsShape | src/main/java/model/BruteForceModel.java:84-105 | every generated board that passes the rank filter has n ranks of n characters |
| Boards.QueenInside | src/main/java/model/BruteForceModel.java:122 | on a rank with exactly one queen the column read off lies inside the rank |
| Boards.NonAttackingIffSolution | src/main/java/model/BruteForceModel.java:121-133 | on an n by n board with one queen per rank, passing the column and diagonal test is exactly having queen columns that solve the puzzle |
| Boards.SurvivorsValid | src/main/java/model/BruteForceModel.java:39-44 | the boards that pass both filters are n by n, with one queen per rank and no attacking pair |
| Boards.SolutionsSound | src/main/java/model/BruteForceModel.java:39-46 | every entry of the solution list is a solution of the puzzle |
| Boards.PlacementsSnoc | src/main/java/model/BruteForceModel.java:159-167 | reformatting one more board adds its queen columns at the end |
| Boards.BruteForceSolutions | src/main/java/model/BruteForceModel.java:39-46 | every entry of the list the pipeline produces is a solution of the puzzle |
| Completeness.QueenRankShape | src/main/java/model/BruteForceModel.java:90-92 | the rank with its queen in column c has n digits, one '1', and reads back as column c |
| Completeness.BoardOfSolution | src/main/java/model/BruteForceModel.java:84-133 | the board drawing a solution passes both board tests and reads back as the solution |
| Completeness.CandidatesUpToHas | src/main/java/model/BruteForceModel.java:59-70 | every number in range with n one bits contributes its candidate |
| Completeness.BoardIsCandidate | src/main/java/model/BruteForceModel.java:57-74 | every n by n digit board with n queens in all is generated |
| Completeness.SolutionsComplete | src/main/java/model/BruteForceModel.java:39-46 | for n >= 1 every solution of the puzzle is in the list the pipeline produces |
| Completeness.SolutionsExact | src/main/java/model/BruteForceModel.java:39-46 | for n >= 1 a placement is in the list exactly when it solves the puzzle |
| Completeness.NoSolutionsOfZero | src/main/java/model/BruteForceModel.java:39-46 | for n = 0 the list is empty |
| Boards.FilterNoDuplicates | src/main/java/model/BruteForceModel.java:99-102 | removing the rejected boards from a list without duplicates leaves a list without duplicates |
| Uniqueness.CandidateValue | src/main/java/model/BruteForceModel.java:61-69 | the ranks of the candidate of i are digit strings and together spell i |
| Uniqueness.CandidatesUpToIncreasing | src/main/java/model/BruteForceModel.java:59-71 | the generated boards spell strictly increasing numbers, each between 1 and the bound |
| Uniqueness.CandidatesNoDuplicates | src/main/java/model/BruteForceModel.java:57-74 | no board is generated twice |
| Uniqueness.RankOfColumn | src/main/java/model/BruteForceModel.java:163 | a digit rank with exactly one queen is the rank drawn from the column read off it |
| Uniqueness.BoardOfPlacement | src/main/java/model/BruteForceModel.java:159-164 | an n by n board of digit ranks with one queen per rank is determined by the queen columns read off it |
| Uniqueness.SurvivorsNoDuplicates | src/main/java/model/BruteForceModel.java:39-44 | no board passes both filters twice |
| Uniqueness.SolutionsDistinct | src/main/java/model/BruteForceModel.java:39-46 | no placement appears twice in the solution list |
| Uniqueness.FilterKeysIncrease | src/main/java/model/BruteForceModel.java:99-102 | removing the rejected boards keeps the rest in generation order, so the numbers they spell still increase |
| Uniqueness.SurvivorsKeysIncrease | src/main/java/model/BruteForceModel.java:39-44 | the boards that pass both filters spell strictly increasing numbers |
| Uniqueness.SolutionsOrdered | src/main/java/model/BruteForceModel.java:39-46 | the solution list is sorted by the numbers the boards of its entries spell |
| Completeness.QueenRankValue | src/main/java/model/BruteForceModel.java:61-69 | the rank with its queen in column c stands for 2^(n-c-1) |
| Uniqueness.FirstRankValue | src/main/java/model/BruteForceModel.java:61-69 | the board of a solution spells its first rank's value times 2^(n(n-1)), plus less than 2^(n(n-1)) for the other ranks |
| Uniqueness.FirstRankOrder | src/main/java/model/BruteForceModel.java:57-74 | of two solutions, the one whose first-rank queen stands further right spells the smaller number, so it is generated first |
| ModelTests.FourSolution | src/test/java/ModelTest.java:116 | [1, 3, 0, 2] and [2, 0, 3, 1] solve the 4-queens puzzle |
| ModelTests.RankFilterScenario | src/test/java/ModelTest.java:59-82 | of the six test boards the rank filter keeps the last two, in order |
| ModelTests.DiagonalFilterScenario | src/test/java/ModelTest.java:84-107 | of the six test boards the column and diagonal filter keeps the two solution boards, in order |
| ModelTests.ReformatScenario | src/test/java/ModelTest.java:109-129 | the two solution boards reformat to [1, 3, 0, 2] and [2, 0, 3, 1] |
| ModelTests.FourQueensOnly | src/test/java/ModelTest.java:116 | every 4-queens solution is [1, 3, 0, 2] or [2, 0, 3, 1] |
| ModelTests.FourQueensOutput | src/main/java/model/BruteForceModel.java:39-46 | for n = 4 a placement is in the solution list exactly when it is [1, 3, 0, 2] or [2, 0, 3, 1] |
| ModelTests.TwoSolutionsSorted | src/main/java/model/BruteForceModel.java:39-46 | a duplicate-free list sorted by board number that holds exactly two solutions lists first the one whose first-rank queen stands further right |
| ModelTests.FourQueensInOrder | src/main/java/model/BruteForceModel.java:39-46 | for n = 4 the solution list is exactly [[2, 0, 3, 1], [1, 3, 0, 2]], two entries in that order |
| BruteForce.RemoveRecorded | src/main/java/model/BruteForceModel.java:99-102 | removing the recorded indices from the last to the first leaves exactly the accepted boards, in order |
| BruteForce.RemovalNext | src/main/java/model/BruteForceModel.java:99-102 | each removal at a recorded index moves the untouched front of the list back to the previous recorded index |
| BruteForce.BruteForceModel.constructor | src/main/java/model/BruteForceModel.java:10-11 | the solution list starts out null |
| BruteForce.BruteForceModel.GetSolutionsList | src/main/java/model/BruteForceModel.java:18-20 | returns the stored list itself |
| BruteForce.BruteForceModel.SetSolutionsList | src/main/java/model/BruteForceModel.java:27-29 | stores the given list by reference |
| BruteForce.BruteForceModel.BruteForceApproach | src/main/java/model/BruteForceModel.java:39-46 | leaves a fresh list of fresh, distinct arrays whose contents are the queen columns of the surviving boards, each a solution of the puzzle |
| BruteForce.BruteForceModel.GenerateAllCombinations | src/main/java/model/BruteForceModel.java:57-74 | appends the candidates of 1 to 2^(n*n), in ascending order, to what the list held, and returns the same list |
| BruteForce.BruteForceModel.OneQueenPerRank | src/main/java/model/BruteForceModel.java:84-105 | removes in place exactly the boards with a rank that does not hold exactly one queen, keeping the order of the rest |
| BruteForce.BruteForceModel.OneQueenPerColumnAndDiagonal | src/main/java/model/BruteForceModel.java:115-143 | removes in place exactly the boards with two ranks sharing a column or a diagonal, keeping the order of the rest |
| BruteForce.BruteForceModel.ReformatTempSolutionList | src/main/java/model/BruteForceModel.java:152-168 | installs a new solution list holding, in order, the queen columns of every board read over as many ranks as the first board has; nothing for no boards |
| BruteForce.BruteForceModel.QueenColumns | src/main/java/model/BruteForceModel.java:160-164 | a new array with the first queen column of each of the first w ranks |
| BruteForce.BruteForceModel.SaveValidSolution | src/main/java/model/BruteForceModel.java:176-181 | appends a fresh copy of the array and leaves the stored arrays in place |

## Left out

- BruteForce.BruteForceModel.BruteForceApproach: requires n <= 5. From n = 6 on, 2^(n*n) exceeds the largest `int`. The counter then wraps around before it passes the bound, so the generation loop never ends. The same bound is on GenerateAllCombinations.
- BruteForce.BruteForceModel.GenerateAllCombinations: `Math.pow` is a double. For n <= 5 it is exact, so it is modelled as the integer 2^(n*n).
- A negative argument (the parameter is a boxed `Integer`) is not modelled. The size is a `nat`.
- The unit test that expects 10 solutions for n = 5 is left out. The model proves that the list holds each solution of the puzzle exactly once (`Completeness.SolutionsExact`, `Uniqueness.SolutionsDistinct`). It gives the whole list, and so its size, only for n = 4 (`ModelTests.FourQueensInOrder`); for n = 5 the list is not worked out.
- The stream filter, the regular-expression split and `String.format` are left out as library calls. They are replaced by the functions `PopCount`, `Chunk` and `PadLeft`, which give the same results on the strings the stages build.
- A `String[]` board is treated as a value, `seq<string>`, because no stage writes into a board after it is generated. Only the lists and the `int[]` solutions are shared objects.
- The run-time exceptions are left out: a null solution list in SaveValidSolution, and a board with fewer ranks than the first in ReformatTempSolutionList. Callers are required to avoid both.
- The backtracking solver, `BackTrackingModel`, is not part of this model.
- The controller, the view, `Main` and the constants are user interface and wiring. They are not part of this model.
