/** What the brute-force pipeline computes, stated as functions on values:
    the raw candidate boards, the two board tests, the order-preserving
    filter that applies them, and the placement of the queens read off a
    board. A board is a sequence of ranks (rows); a rank is a string of
    '0' and '1' in which '1' marks a queen. */
module Boards {
  import opened BinaryStrings
  import opened Counting

  type Rank = string
  type Board = seq<Rank>

  /** The elements of s that keep accepts, in their order in s. */
  function Filter<T>(keep: T -> bool, s: seq<T>): (r: seq<T>)
    ensures |r| <= |s|
  {
    if s == [] then []
    else (if keep(s[0]) then [s[0]] else []) + Filter(keep, s[1..])
  }

  /** The filter keeps exactly the accepted elements. */
  lemma {:induction false} FilterMembers<T>(keep: T -> bool, s: seq<T>, x: T)
    ensures x in Filter(keep, s) <==> x in s && keep(x)
    decreases |s|
  {
    if s != [] {
      FilterMembers(keep, s[1..], x);
      assert s == [s[0]] + s[1..];
    }
  }

  /** Filtering a concatenation filters each part. */
  lemma {:induction false} FilterAppend<T>(keep: T -> bool, a: seq<T>, b: seq<T>)
    ensures Filter(keep, a + b) == Filter(keep, a) + Filter(keep, b)
    decreases |a|
  {
    if a == [] {
      assert a + b == b;
    } else {
      var head := if keep(a[0]) then [a[0]] else [];
      var ab := a + b;
      assert ab[0] == a[0] && ab[1..] == a[1..] + b;
      assert Filter(keep, ab) == head + Filter(keep, a[1..] + b);
      FilterAppend(keep, a[1..], b);
      assert Filter(keep, a) == head + Filter(keep, a[1..]);
      assert head + (Filter(keep, a[1..]) + Filter(keep, b))
          == (head + Filter(keep, a[1..])) + Filter(keep, b);
    }
  }

  /** When every element is accepted nothing is dropped or moved. */
  lemma {:induction false} FilterAllKept<T>(keep: T -> bool, s: seq<T>)
    requires forall k :: 0 <= k < |s| ==> keep(s[k])
    ensures Filter(keep, s) == s
    decreases |s|
  {
    if s != [] {
      FilterAllKept(keep, s[1..]);
    }
  }

  /** Filtering twice with the same test is filtering once. */
  lemma FilterIdempotent<T>(keep: T -> bool, s: seq<T>)
    ensures Filter(keep, Filter(keep, s)) == Filter(keep, s)
  {
    var r := Filter(keep, s);
    forall k | 0 <= k < |r|
      ensures keep(r[k])
    {
      FilterMembers(keep, s, r[k]);
    }
    FilterAllKept(keep, r);
  }

  /** No two positions of s hold the same element. */
  ghost predicate NoDuplicates<T>(s: seq<T>) {
    forall a, b :: 0 <= a < b < |s| ==> s[a] != s[b]
  }

  /** Filtering a list without duplicates leaves a list without duplicates. */
  lemma {:induction false} FilterNoDuplicates<T>(keep: T -> bool, s: seq<T>)
    requires NoDuplicates(s)
    ensures NoDuplicates(Filter(keep, s))
    decreases |s|
  {
    if s != [] {
      var rest := s[1..];
      forall a, b | 0 <= a < b < |rest|
        ensures rest[a] != rest[b]
      {
        assert rest[a] == s[a + 1] && rest[b] == s[b + 1];
      }
      FilterNoDuplicates(keep, rest);
      forall k | 0 <= k < |rest|
        ensures rest[k] != s[0]
      {
        assert rest[k] == s[k + 1];
      }
      FilterMembers(keep, rest, s[0]);
      var f := Filter(keep, rest);
      var r := Filter(keep, s);
      if keep(s[0]) {
        assert r == [s[0]] + f;
        forall a, b | 0 <= a < b < |r|
          ensures r[a] != r[b]
        {
          assert r[b] == f[b - 1];
          if a > 0 {
            assert r[a] == f[a - 1];
          } else {
            assert f[b - 1] in f;
          }
        }
      } else {
        assert r == f;
      }
    }
  }

  /** Appending an element not yet present keeps a list free of duplicates. */
  lemma NoDuplicatesSnoc<T>(s: seq<T>, x: T)
    requires NoDuplicates(s) && x !in s
    ensures NoDuplicates(s + [x])
  {
  }

  /** Every rank holds exactly one queen. */
  predicate HasOneQueenPerRank(b: Board) {
    forall r :: 0 <= r < |b| ==> PopCount(b[r]) == 1
  }

  function Abs(x: int): nat {
    if x < 0 then -x else x
  }

  /** The column of the queen on a rank: the first '1', or -1 for none. */
  function QueenColumn(rank: Rank): int {
    IndexOf(rank, '1')
  }

  /** The queens read off ranks i < j share a column or a diagonal. A rank
      without a queen reads as column -1, so two such ranks collide. */
  predicate Attack(b: Board, i: nat, j: nat)
    requires i < j < |b|
  {
    var p, q := QueenColumn(b[i]), QueenColumn(b[j]);
    p == q || Abs(p - q) == Abs(i - j)
  }

  /** No pair of ranks, adjacent or not, attacks. */
  predicate NonAttacking(b: Board) {
    forall i, j :: 0 <= i < j < |b| ==> !Attack(b, i, j)
  }

  /** The raw candidate for the number i: its binary numeral padded with zeros
      to n * n digits and cut into ranks of n digits. */
  function Candidate(i: nat, n: nat): Board
    requires n >= 1
  {
    Chunk(PadLeft(Binary(i), n * n), n)
  }

  /** The candidates for 1 .. hi, in ascending order: one for every number
      whose numeral has exactly n ones. */
  function CandidatesUpTo(n: nat, hi: nat): seq<Board> {
    if hi == 0 then []
    else CandidatesUpTo(n, hi - 1)
         + (if PopCount(Binary(hi)) == n then [Candidate(hi, n)] else [])
  }

  /** All candidates for an n by n board: the numbers 1 .. 2^(n*n), both ends
      included. */
  function Candidates(n: nat): seq<Board> {
    CandidatesUpTo(n, Pow2(n * n))
  }

  /** n ranks of n characters. */
  predicate WellShaped(b: Board, n: nat) {
    |b| == n && forall r :: 0 <= r < n ==> |b[r]| == n
  }

  /** The queen columns of the first w ranks of b. */
  function Placement(b: Board, w: nat): seq<int>
    requires w <= |b|
  {
    seq(w, r requires 0 <= r < w => QueenColumn(b[r]))
  }

  /** The queen columns of every board, each read over the same w ranks. */
  function Placements(bs: seq<Board>, w: nat): seq<seq<int>>
    requires forall k :: 0 <= k < |bs| ==> w <= |bs[k]|
  {
    seq(|bs|, k requires 0 <= k < |bs| => Placement(bs[k], w))
  }

  /** Reading one more board adds its placement at the end. */
  lemma PlacementsSnoc(bs: seq<Board>, x: Board, w: nat)
    requires forall k :: 0 <= k < |bs| ==> w <= |bs[k]|
    requires w <= |x|
    ensures Placements(bs + [x], w) == Placements(bs, w) + [Placement(x, w)]
  {
  }

  /** The solution list made from the surviving boards: every board read over
      as many ranks as the first board has; nothing for no boards. */
  function Reformatted(bs: seq<Board>): seq<seq<int>>
    requires bs != [] ==> forall k :: 0 <= k < |bs| ==> |bs[0]| <= |bs[k]|
  {
    if bs == [] then [] else Placements(bs, |bs[0]|)
  }

  /** The boards that pass both filters. */
  function Survivors(n: nat): seq<Board> {
    Filter(NonAttacking, Filter(HasOneQueenPerRank, Candidates(n)))
  }

  /** The puzzle's own notion of a solution, independent of boards: one column
      per row, inside the board, no two queens in a column or on a diagonal. */
  predicate IsSolution(p: seq<int>, n: nat) {
    |p| == n
    && (forall r :: 0 <= r < n ==> 0 <= p[r] < n)
    && (forall i, j :: 0 <= i < j < n ==> p[i] != p[j] && Abs(p[i] - p[j]) != j - i)
  }

  // ---------------------------------------------------------------------
  // Candidates

  /** 2^m has a single one bit. */
  lemma PowerOfTwoOnes(m: nat)
    ensures PopCount(Binary(Pow2(m))) == 1
  {
    PopCountBinary(Pow2(m));
    OnesTopBit(m, 0);
  }

  /** For i below 2^(n*n), the pad-and-cut round trip: the candidate has n ranks
      of n characters, and putting them back together gives the numeral of i
      padded to n * n digits, whose value is i and whose ones are those of i. */
  lemma CandidateRoundTrip(i: nat, n: nat)
    requires n >= 1 && 1 <= i < Pow2(n * n)
    ensures WellShaped(Candidate(i, n), n)
    ensures Flatten(Candidate(i, n)) == PadLeft(Binary(i), n * n)
    ensures |Flatten(Candidate(i, n))| == n * n
    ensures ValueOf(Flatten(Candidate(i, n))) == i
    ensures PopCount(Flatten(Candidate(i, n))) == PopCount(Binary(i))
  {
    BinaryLength(i, n * n);
    var s := PadLeft(Binary(i), n * n);
    assert |s| == n * n;
    ChunkExact(s, n, n);
    PadLeftValue(Binary(i), n * n);
    BinaryRoundTrip(i);
  }

  /** For n >= 2 every candidate is an n by n board. */
  lemma {:induction false} CandidatesUpToShape(n: nat, hi: nat)
    requires n >= 2 && hi <= Pow2(n * n)
    ensures forall b :: b in CandidatesUpTo(n, hi) ==> WellShaped(b, n)
    decreases hi
  {
    if hi > 0 {
      CandidatesUpToShape(n, hi - 1);
      if PopCount(Binary(hi)) == n {
        if hi == Pow2(n * n) {
          PowerOfTwoOnes(n * n);
        }
        CandidateRoundTrip(hi, n);
      }
    }
  }

  /** There is no candidate for a board of size zero. */
  lemma {:induction false} CandidatesOfZero(hi: nat)
    ensures CandidatesUpTo(0, hi) == []
    decreases hi
  {
    if hi > 0 {
      CandidatesOfZero(hi - 1);
    }
  }

  /** For n = 1 the bound 2^1 is itself a candidate, one digit wider than the
      board: the candidates are ["1"] and ["1", "0"]. */
  lemma CandidatesOfOne()
    ensures Candidates(1) == [["1"], ["1", "0"]]
  {
    assert Pow2(1 * 1) == 2;
    assert Binary(1) == "1" && Binary(2) == "10";
    assert Candidate(1, 1) == Chunk("1", 1) == ["1"];
    assert Candidate(2, 1) == Chunk("10", 1) == ["1"] + Chunk("0", 1) == ["1", "0"];
    assert CandidatesUpTo(1, 1) == [["1"]];
  }

  /** There is one candidate per number in 1 .. hi with n one bits. */
  lemma {:induction false} CandidatesUpToCount(n: nat, hi: nat)
    ensures |CandidatesUpTo(n, hi)| == CountWithOnes(1, hi, n)
    decreases hi
  {
    if hi > 0 {
      CandidatesUpToCount(n, hi - 1);
      PopCountBinary(hi);
      assert CountWithOnes(1, hi, n) == CountWithOnes(1, hi - 1, n) + (if Ones(hi) == n then 1 else 0);
    }
  }

  /** For n >= 2 there are C(n*n, n) candidates: one per way of choosing the
      n cells of the queens. */
  lemma CandidateCount(n: nat)
    requires n >= 2
    ensures |Candidates(n)| == Choose(n * n, n)
  {
    CandidatesUpToCount(n, Pow2(n * n));
    CountOneToPow2(n * n, n);
  }

  /** For a 4 by 4 board there are 1820 candidates. The size is a parameter
      fixed at 4, which keeps the generation from being unrolled. */
  lemma CandidateCountFour(n: nat)
    requires n == 4
    ensures |Candidates(n)| == 1820
  {
    var m := n * n;
    assert m == 16;
    CandidateCount(n);
    assert |Candidates(n)| == Choose(m, n);
    ChooseFourOfSixteen(m);
  }

  // ---------------------------------------------------------------------
  // Filters and placements

  /** For n = 1 the rank filter drops ["1", "0"] and keeps ["1"]. */
  lemma RankSurvivorsOfOne()
    ensures Filter(HasOneQueenPerRank, Candidates(1)) == [["1"]]
  {
    CandidatesOfOne();
    var wide: Board := ["1", "0"];
    assert PopCount(wide[1]) == 0;
    assert !HasOneQueenPerRank(wide);
    assert HasOneQueenPerRank(["1"]);
  }

  lemma RankSurvivorsShapeLarge(n: nat)
    requires n >= 2
    ensures forall b :: b in Filter(HasOneQueenPerRank, Candidates(n)) ==> WellShaped(b, n)
  {
    CandidatesUpToShape(n, Pow2(n * n));
    forall b | b in Filter(HasOneQueenPerRank, Candidates(n))
      ensures WellShaped(b, n)
    {
      FilterMembers(HasOneQueenPerRank, Candidates(n), b);
    }
  }

  /** The candidates that pass the rank filter are n by n boards. */
  lemma RankSurvivorsShape(n: nat)
    ensures forall b :: b in Filter(HasOneQueenPerRank, Candidates(n)) ==> WellShaped(b, n)
  {
    if n == 0 {
      CandidatesOfZero(Pow2(n * n));
      assert Candidates(n) == [];
    } else if n == 1 {
      RankSurvivorsOfOne();
      assert WellShaped(["1"], 1);
    } else {
      RankSurvivorsShapeLarge(n);
    }
  }

  /** A rank with exactly one queen has its queen inside the rank. */
  lemma QueenInside(rank: Rank)
    requires PopCount(rank) == 1
    ensures 0 <= QueenColumn(rank) < |rank|
  {
  }

  /** On an n by n board with one queen per rank, passing the column and
      diagonal filter is exactly being a solution of the puzzle. */
  lemma NonAttackingIffSolution(b: Board, n: nat)
    requires WellShaped(b, n) && HasOneQueenPerRank(b)
    ensures NonAttacking(b) <==> IsSolution(Placement(b, n), n)
  {
    var p := Placement(b, n);
    forall r | 0 <= r < n
      ensures 0 <= p[r] < n
    {
      QueenInside(b[r]);
    }
    forall i, j | 0 <= i < j < n
      ensures Attack(b, i, j) <==> (p[i] == p[j] || Abs(p[i] - p[j]) == j - i)
    {
    }
  }

  /** The boards that pass both filters are n by n boards with one queen per
      rank and no two queens attacking. */
  lemma SurvivorsValid(n: nat)
    ensures forall b :: b in Survivors(n) ==> WellShaped(b, n) && HasOneQueenPerRank(b) && NonAttacking(b)
  {
    var rs := Filter(HasOneQueenPerRank, Candidates(n));
    RankSurvivorsShape(n);
    forall b | b in Survivors(n)
      ensures WellShaped(b, n) && HasOneQueenPerRank(b) && NonAttacking(b)
    {
      FilterMembers(NonAttacking, rs, b);
      FilterMembers(HasOneQueenPerRank, Candidates(n), b);
    }
  }

  /** Every entry of the solution list made from the survivors is a solution
      of the puzzle. */
  lemma SolutionsSound(n: nat)
    ensures forall k :: 0 <= k < |Survivors(n)| ==> |Survivors(n)[k]| == n
    ensures forall k :: 0 <= k < |Reformatted(Survivors(n))| ==> IsSolution(Reformatted(Survivors(n))[k], n)
  {
    var bs := Survivors(n);
    SurvivorsValid(n);
    forall k | 0 <= k < |bs|
      ensures |bs[k]| == n
      ensures IsSolution(Placement(bs[k], n), n)
    {
      assert bs[k] in bs;
      NonAttackingIffSolution(bs[k], n);
    }
  }

  /** What the pipeline leaves in the solution list for an n by n board: the
      queen columns of the surviving boards, in generation order. Each entry
      is a solution of the puzzle. */
  function BruteForceSolutions(n: nat): (r: seq<seq<int>>)
    ensures forall k :: 0 <= k < |r| ==> IsSolution(r[k], n)
  {
    SolutionsSound(n);
    Reformatted(Survivors(n))
  }
}
