/** The converse of the soundness of the brute-force pipeline: on an n by n
    board with n >= 1, every placement of n non-attacking queens shows up in
    the solution list, because the board drawing it is one of the candidates
    and passes both filters. */
module Completeness {
  import opened BinaryStrings
  import opened Boards

  /** The rank of width n with its only queen in column c. */
  function QueenRank(c: nat, n: nat): Rank
    requires c < n
  {
    Zeros(c) + ['1'] + Zeros(n - c - 1)
  }

  /** That rank has n digits, one of them a '1', and it is found in column c. */
  lemma QueenRankShape(c: nat, n: nat)
    requires c < n
    ensures |QueenRank(c, n)| == n && IsBits(QueenRank(c, n))
    ensures PopCount(QueenRank(c, n)) == 1
    ensures QueenColumn(QueenRank(c, n)) == c
  {
    var r := QueenRank(c, n);
    ZerosValue(n - c - 1);
    PopCountAppend(['1'], Zeros(n - c - 1));
    assert r == Zeros(c) + (['1'] + Zeros(n - c - 1));
    ZerosPrefix(c, ['1'] + Zeros(n - c - 1));
    assert r[c] == '1';
    assert r[..c] == Zeros(c);
    assert '1' !in r[..c];
    assert r[c] in r;
  }

  /** Digit by digit, the rank drawn from column c is '1' at c and '0'
      elsewhere. */
  lemma QueenRankDigits(c: nat, n: nat)
    requires c < n
    ensures forall j :: 0 <= j < n ==> QueenRank(c, n)[j] == if j == c then '1' else '0'
  {
  }

  /** Read as a numeral, the rank with its queen in column c is the power of
      two of the place that column stands for. */
  lemma QueenRankValue(c: nat, n: nat)
    requires c < n
    ensures ValueOf(QueenRank(c, n)) == Pow2(n - c - 1)
  {
    var tail := ['1'] + Zeros(n - c - 1);
    assert QueenRank(c, n) == Zeros(c) + tail;
    ZerosPrefix(c, tail);
    ValueOfAppend(['1'], Zeros(n - c - 1));
    ZerosValue(n - c - 1);
    assert ValueOf(['1']) == 1;
  }

  /** The board that draws a placement: rank r has its queen in column p[r]. */
  function BoardOf(p: seq<int>, n: nat): Board
    requires forall r :: 0 <= r < |p| ==> 0 <= p[r] < n
  {
    seq(|p|, r requires 0 <= r < |p| => QueenRank(p[r], n))
  }

  /** Ranks of one queen each put together hold one queen per rank. */
  lemma {:induction false} FlattenPopCount(parts: seq<string>)
    requires forall k :: 0 <= k < |parts| ==> PopCount(parts[k]) == 1
    ensures PopCount(Flatten(parts)) == |parts|
    decreases |parts|
  {
    if parts != [] {
      FlattenPopCount(parts[1..]);
      PopCountAppend(parts[0], Flatten(parts[1..]));
    }
  }

  /** The board of a solution is an n by n board with one queen per rank that
      the column and diagonal test accepts, and reading it back gives the
      placement. */
  lemma BoardOfSolution(p: seq<int>, n: nat)
    requires IsSolution(p, n)
    ensures WellShaped(BoardOf(p, n), n) && HasOneQueenPerRank(BoardOf(p, n))
    ensures Placement(BoardOf(p, n), n) == p
    ensures NonAttacking(BoardOf(p, n))
    ensures IsBits(Flatten(BoardOf(p, n))) && PopCount(Flatten(BoardOf(p, n))) == n
  {
    var b := BoardOf(p, n);
    forall r | 0 <= r < n
      ensures |b[r]| == n && IsBits(b[r]) && PopCount(b[r]) == 1 && QueenColumn(b[r]) == p[r]
    {
      QueenRankShape(p[r], n);
    }
    assert Placement(b, n) == p;
    NonAttackingIffSolution(b, n);
    FlattenBits(b);
    FlattenPopCount(b);
  }

  /** The candidate of every number up to hi with n one bits is listed. */
  lemma {:induction false} CandidatesUpToHas(n: nat, i: nat, hi: nat)
    requires n >= 1 && 1 <= i <= hi && PopCount(Binary(i)) == n
    ensures Candidate(i, n) in CandidatesUpTo(n, hi)
    decreases hi
  {
    if i < hi {
      CandidatesUpToHas(n, i, hi - 1);
    }
  }

  /** A board of n digit ranks of width n with n queens in all is generated:
      it is the candidate of the number its digits spell. */
  lemma BoardIsCandidate(b: Board, n: nat)
    requires n >= 1 && WellShaped(b, n)
    requires IsBits(Flatten(b)) && PopCount(Flatten(b)) == n
    ensures b in Candidates(n)
  {
    var s := Flatten(b);
    FlattenLength(b, n);
    var i := ValueOf(s);
    if i == 0 {
      ZeroValueIsZeros(s);
      ZerosValue(|s|);
      assert false;
    }
    NumeralOfValue(s);
    PadLeftValue(Binary(i), n * n);
    ValueBound(s);
    ChunkFlatten(b, n);
    assert Candidate(i, n) == b;
    CandidatesUpToHas(n, i, Pow2(n * n));
  }

  /** For n >= 1, every solution of the puzzle is in the solution list the
      pipeline produces. */
  lemma SolutionsComplete(p: seq<int>, n: nat)
    requires n >= 1 && IsSolution(p, n)
    ensures p in BruteForceSolutions(n)
  {
    var b := BoardOf(p, n);
    BoardOfSolution(p, n);
    BoardIsCandidate(b, n);
    var rs := Filter(HasOneQueenPerRank, Candidates(n));
    FilterMembers(HasOneQueenPerRank, Candidates(n), b);
    FilterMembers(NonAttacking, rs, b);
    var bs := Survivors(n);
    assert b in bs;
    var k :| 0 <= k < |bs| && bs[k] == b;
    SolutionsSound(n);
    assert Reformatted(bs)[k] == Placement(b, n);
  }

  /** For n >= 1 the solution list holds exactly the solutions of the puzzle. */
  lemma SolutionsExact(p: seq<int>, n: nat)
    requires n >= 1
    ensures p in BruteForceSolutions(n) <==> IsSolution(p, n)
  {
    if IsSolution(p, n) {
      SolutionsComplete(p, n);
    }
  }

  /** For n = 0 no number from 1 up has zero one bits, so the list is empty. */
  lemma NoSolutionsOfZero(n: nat)
    requires n == 0
    ensures BruteForceSolutions(n) == []
  {
    CandidatesOfZero(Pow2(n * n));
  }
}
