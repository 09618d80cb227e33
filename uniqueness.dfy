/** The brute-force pipeline lists no solution twice: the generated boards
    spell strictly increasing numbers, the filters keep a subsequence, and a
    board with one queen per rank is determined by its queen columns. With
    the completeness of the list, every solution appears exactly once. */
module Uniqueness {
  import opened BinaryStrings
  import opened Boards
  import opened Completeness

  /** Leading zeros added to a digit string keep it a digit string. */
  lemma PadLeftBits(s: string, w: nat)
    requires IsBits(s)
    ensures IsBits(PadLeft(s, w))
  {
    if |s| < w {
      var p := PadLeft(s, w);
      var z := w - |s|;
      forall k | 0 <= k < |p|
        ensures p[k] == '0' || p[k] == '1'
      {
        if k >= z {
          assert p[k] == s[k - z];
        }
      }
    }
  }

  /** The pieces of a digit string are digit strings. */
  lemma {:induction false} PartsBits(parts: seq<string>)
    requires IsBits(Flatten(parts))
    ensures forall j :: 0 <= j < |parts| ==> IsBits(parts[j])
    decreases |parts|
  {
    if parts != [] {
      var head, tail := parts[0], Flatten(parts[1..]);
      assert Flatten(parts) == head + tail;
      forall k | 0 <= k < |tail|
        ensures tail[k] == '0' || tail[k] == '1'
      {
        assert tail[k] == Flatten(parts)[|head| + k];
      }
      forall k | 0 <= k < |head|
        ensures head[k] == '0' || head[k] == '1'
      {
        assert head[k] == Flatten(parts)[k];
      }
      PartsBits(parts[1..]);
    }
  }

  /** The candidate of i is made of digit ranks that together spell i. */
  lemma CandidateValue(i: nat, n: nat)
    requires n >= 1
    ensures ValueOf(Flatten(Candidate(i, n))) == i
    ensures forall r :: 0 <= r < |Candidate(i, n)| ==> IsBits(Candidate(i, n)[r])
  {
    PadLeftValue(Binary(i), n * n);
    BinaryRoundTrip(i);
    PadLeftBits(Binary(i), n * n);
    PartsBits(Candidate(i, n));
  }

  lemma CandidateKey(i: nat, n: nat)
    requires n >= 1
    ensures Key(Candidate(i, n)) == i
  {
    CandidateValue(i, n);
  }

  /** The number a board's digits spell, rank after rank. */
  function Key(b: Board): nat {
    ValueOf(Flatten(b))
  }

  /** The boards of bs spell strictly increasing numbers. */
  ghost predicate KeysIncrease(bs: seq<Board>) {
    forall a, b :: 0 <= a < b < |bs| ==> Key(bs[a]) < Key(bs[b])
  }

  /** The boards of bs spell numbers from 1 to hi. */
  ghost predicate KeysWithin(bs: seq<Board>, hi: nat) {
    forall k :: 0 <= k < |bs| ==> 1 <= Key(bs[k]) <= hi
  }

  /** The boards generated for 1 .. hi spell strictly increasing numbers
      from that range. */
  lemma {:induction false} CandidatesUpToIncreasing(n: nat, hi: nat)
    requires n >= 1
    ensures KeysWithin(CandidatesUpTo(n, hi), hi) && KeysIncrease(CandidatesUpTo(n, hi))
    decreases hi
  {
    if hi > 0 {
      CandidatesUpToIncreasing(n, hi - 1);
      CandidatesUpToStep(n, hi);
    }
  }

  /** One step of the generation keeps the keys increasing and in range. */
  lemma CandidatesUpToStep(n: nat, hi: nat)
    requires n >= 1 && hi >= 1
    requires KeysWithin(CandidatesUpTo(n, hi - 1), hi - 1)
    requires KeysIncrease(CandidatesUpTo(n, hi - 1))
    ensures KeysWithin(CandidatesUpTo(n, hi), hi) && KeysIncrease(CandidatesUpTo(n, hi))
  {
    var prev := CandidatesUpTo(n, hi - 1);
    if PopCount(Binary(hi)) == n {
      var last := Candidate(hi, n);
      assert CandidatesUpTo(n, hi) == prev + [last];
      CandidateKey(hi, n);
      IncreasingSnoc(prev, last, hi);
    } else {
      assert CandidatesUpTo(n, hi) == prev;
      KeysWithinWiden(prev, hi - 1, hi);
    }
  }

  /** Numbers up to lo are also numbers up to any hi above lo. */
  lemma KeysWithinWiden(bs: seq<Board>, lo: nat, hi: nat)
    requires KeysWithin(bs, lo) && lo <= hi
    ensures KeysWithin(bs, hi)
  {
  }

  /** Boards spelling increasing numbers below hi, followed by one spelling
      hi, spell increasing numbers up to hi. */
  lemma IncreasingSnoc(prev: seq<Board>, last: Board, hi: nat)
    requires hi >= 1 && KeysWithin(prev, hi - 1) && KeysIncrease(prev)
    requires Key(last) == hi
    ensures KeysWithin(prev + [last], hi) && KeysIncrease(prev + [last])
  {
    var all := prev + [last];
    forall k | 0 <= k < |all|
      ensures 1 <= Key(all[k]) <= hi
    {
      if k < |prev| {
        assert all[k] == prev[k];
      }
    }
    forall a, b | 0 <= a < b < |all|
      ensures Key(all[a]) < Key(all[b])
    {
      assert all[a] == prev[a];
      if b < |prev| {
        assert all[b] == prev[b];
      }
    }
  }

  /** The filter keeps boards in their order, so their numbers still
      increase. */
  lemma {:induction false} FilterKeysIncrease(keep: Board -> bool, bs: seq<Board>)
    requires KeysIncrease(bs)
    ensures KeysIncrease(Filter(keep, bs))
    decreases |bs|
  {
    if bs != [] {
      var rest := bs[1..];
      forall a, b | 0 <= a < b < |rest|
        ensures Key(rest[a]) < Key(rest[b])
      {
        assert rest[a] == bs[a + 1] && rest[b] == bs[b + 1];
      }
      FilterKeysIncrease(keep, rest);
      var f := Filter(keep, rest);
      var r := Filter(keep, bs);
      if keep(bs[0]) {
        assert r == [bs[0]] + f;
        forall a, b | 0 <= a < b < |r|
          ensures Key(r[a]) < Key(r[b])
        {
          assert r[b] == f[b - 1];
          if a > 0 {
            assert r[a] == f[a - 1];
          } else {
            FilterMembers(keep, rest, f[b - 1]);
            var k :| 0 <= k < |rest| && rest[k] == f[b - 1];
            assert rest[k] == bs[k + 1];
          }
        }
      } else {
        assert r == f;
      }
    }
  }

  /** The boards that pass both filters spell strictly increasing numbers. */
  lemma SurvivorsKeysIncrease(n: nat)
    requires n >= 1
    ensures KeysIncrease(Survivors(n))
  {
    CandidatesUpToIncreasing(n, Pow2(n * n));
    FilterKeysIncrease(HasOneQueenPerRank, Candidates(n));
    FilterKeysIncrease(NonAttacking, Filter(HasOneQueenPerRank, Candidates(n)));
  }

  /** The boards generated for 1 .. hi are made of digit ranks. */
  lemma {:induction false} CandidatesUpToBits(n: nat, hi: nat)
    requires n >= 1
    ensures forall b :: b in CandidatesUpTo(n, hi) ==> forall r :: 0 <= r < |b| ==> IsBits(b[r])
    decreases hi
  {
    if hi > 0 {
      CandidatesUpToBits(n, hi - 1);
      CandidateValue(hi, n);
    }
  }

  /** No board is generated twice. */
  lemma CandidatesNoDuplicates(n: nat)
    requires n >= 1
    ensures NoDuplicates(Candidates(n))
  {
    var cs := Candidates(n);
    CandidatesUpToIncreasing(n, Pow2(n * n));
    forall a, b | 0 <= a < b < |cs|
      ensures cs[a] != cs[b]
    {
      assert Key(cs[a]) < Key(cs[b]);
    }
  }

  /** The queens of a rank: those before position c, the one at c, and those
      after it. */
  lemma PopCountAround(r: string, c: nat)
    requires c < |r|
    ensures PopCount(r) == PopCount(r[..c]) + (if r[c] == '1' then 1 else 0) + PopCount(r[c + 1..])
  {
    var front, back := r[..c], r[c + 1..];
    assert r == (front + [r[c]]) + back;
    PopCountAppend(front + [r[c]], back);
    PopCountAppend(front, [r[c]]);
    assert [r[c]][..0] == [];
  }

  /** A digit rank with exactly one queen is the rank drawn from its column. */
  lemma RankOfColumn(r: Rank, n: nat)
    requires |r| == n && IsBits(r) && PopCount(r) == 1
    ensures 0 <= QueenColumn(r) < n && r == QueenRank(QueenColumn(r), n)
  {
    var c := QueenColumn(r);
    QueenInside(r);
    PopCountAround(r, c);
    var front, back := r[..c], r[c + 1..];
    assert PopCount(front) == 0 && PopCount(back) == 0;
    QueenRankDigits(c, n);
    var q := QueenRank(c, n);
    forall j | 0 <= j < n
      ensures r[j] == q[j]
    {
      if j < c {
        assert front[j] == r[j];
      } else if j > c {
        assert back[j - c - 1] == r[j];
      }
    }
  }

  /** An n by n board of digit ranks with one queen per rank is the board
      drawn from its queen columns. */
  lemma BoardOfPlacement(b: Board, n: nat)
    requires WellShaped(b, n) && HasOneQueenPerRank(b)
    requires forall r :: 0 <= r < n ==> IsBits(b[r])
    ensures forall r :: 0 <= r < n ==> 0 <= Placement(b, n)[r] < n
    ensures BoardOf(Placement(b, n), n) == b
  {
    forall r | 0 <= r < n
      ensures 0 <= QueenColumn(b[r]) < n && b[r] == QueenRank(QueenColumn(b[r]), n)
    {
      RankOfColumn(b[r], n);
    }
  }

  /** The boards that pass both filters are n by n boards of digit ranks
      with one queen per rank. */
  lemma SurvivorsDigits(n: nat)
    requires n >= 1
    ensures forall k :: 0 <= k < |Survivors(n)| ==>
      WellShaped(Survivors(n)[k], n) && HasOneQueenPerRank(Survivors(n)[k])
      && forall r :: 0 <= r < n ==> IsBits(Survivors(n)[k][r])
  {
    var rs := Filter(HasOneQueenPerRank, Candidates(n));
    var bs := Survivors(n);
    CandidatesUpToBits(n, Pow2(n * n));
    SurvivorsValid(n);
    forall k | 0 <= k < |bs|
      ensures WellShaped(bs[k], n) && HasOneQueenPerRank(bs[k])
      ensures forall r :: 0 <= r < n ==> IsBits(bs[k][r])
    {
      assert bs[k] in bs;
      FilterMembers(NonAttacking, rs, bs[k]);
      FilterMembers(HasOneQueenPerRank, Candidates(n), bs[k]);
    }
  }

  /** No board passes both filters twice. */
  lemma SurvivorsNoDuplicates(n: nat)
    requires n >= 1
    ensures NoDuplicates(Survivors(n))
  {
    CandidatesNoDuplicates(n);
    FilterNoDuplicates(HasOneQueenPerRank, Candidates(n));
    FilterNoDuplicates(NonAttacking, Filter(HasOneQueenPerRank, Candidates(n)));
  }

  /** Each board that passes both filters is the board drawn from its queen
      columns. */
  lemma SurvivorsDetermined(n: nat)
    requires n >= 1
    ensures forall k :: 0 <= k < |Survivors(n)| ==>
      |Survivors(n)[k]| == n
      && (forall r :: 0 <= r < n ==> 0 <= Placement(Survivors(n)[k], n)[r] < n)
      && BoardOf(Placement(Survivors(n)[k], n), n) == Survivors(n)[k]
  {
    var bs := Survivors(n);
    SurvivorsDigits(n);
    forall k | 0 <= k < |bs|
      ensures |bs[k]| == n && (forall r :: 0 <= r < n ==> 0 <= Placement(bs[k], n)[r] < n)
      ensures BoardOf(Placement(bs[k], n), n) == bs[k]
    {
      BoardOfPlacement(bs[k], n);
    }
  }

  /** The solution list holds no placement twice. */
  lemma SolutionsDistinct(n: nat)
    ensures NoDuplicates(BruteForceSolutions(n))
  {
    if n == 0 {
      NoSolutionsOfZero(n);
    } else {
      var bs := Survivors(n);
      SurvivorsNoDuplicates(n);
      SurvivorsDetermined(n);
      var sols := BruteForceSolutions(n);
      forall a, b | 0 <= a < b < |sols|
        ensures sols[a] != sols[b]
      {
        assert sols[a] == Placement(bs[a], n) && sols[b] == Placement(bs[b], n);
        assert bs[a] != bs[b];
      }
    }
  }

  /** Each solution, drawn again as a board, is the surviving board it was
      read from. */
  lemma SolutionsAsBoards(n: nat)
    requires n >= 1
    ensures |BruteForceSolutions(n)| == |Survivors(n)|
    ensures forall k :: 0 <= k < |Survivors(n)| ==>
      BoardOf(BruteForceSolutions(n)[k], n) == Survivors(n)[k]
  {
    var bs := Survivors(n);
    SurvivorsDetermined(n);
    var sols := BruteForceSolutions(n);
    forall k | 0 <= k < |bs|
      ensures BoardOf(sols[k], n) == bs[k]
    {
      assert sols[k] == Placement(bs[k], n);
    }
  }

  /** The solution list is sorted by the number each solution's board
      spells, the order in which the boards were generated. */
  lemma SolutionsOrdered(n: nat)
    ensures forall a, b :: 0 <= a < b < |BruteForceSolutions(n)| ==>
      IsSolution(BruteForceSolutions(n)[a], n) && IsSolution(BruteForceSolutions(n)[b], n)
      && Key(BoardOf(BruteForceSolutions(n)[a], n)) < Key(BoardOf(BruteForceSolutions(n)[b], n))
  {
    if n == 0 {
      NoSolutionsOfZero(n);
    } else {
      var bs := Survivors(n);
      SurvivorsKeysIncrease(n);
      SolutionsAsBoards(n);
      var sols := BruteForceSolutions(n);
      forall a, b | 0 <= a < b < |sols|
        ensures Key(BoardOf(sols[a], n)) < Key(BoardOf(sols[b], n))
      {
        assert BoardOf(sols[a], n) == bs[a] && BoardOf(sols[b], n) == bs[b];
      }
    }
  }

  /** Below the first rank, the board of a solution has n - 1 ranks of n
      digits. */
  lemma LowerRanksLength(p: seq<int>, n: nat)
    requires IsSolution(p, n) && n >= 1
    ensures |Flatten(BoardOf(p, n)[1..])| == (n - 1) * n
  {
    var rest := BoardOf(p, n)[1..];
    RanksWidth(p, n);
    assert |rest| == n - 1;
    FlattenLength(rest, n);
  }

  /** Every rank drawn from a placement has n digits. */
  lemma RanksWidth(p: seq<int>, n: nat)
    requires forall r :: 0 <= r < |p| ==> 0 <= p[r] < n
    ensures forall r :: 0 <= r < |p| ==> |BoardOf(p, n)[r]| == n
  {
    forall r | 0 <= r < |p|
      ensures |BoardOf(p, n)[r]| == n
    {
      QueenRankShape(p[r], n);
    }
  }

  /** The number a board drawn from a solution spells: its first rank
      stands for the highest places, the other ranks spell less than one
      unit of them. */
  lemma FirstRankValue(p: seq<int>, n: nat)
    requires IsSolution(p, n) && n >= 1
    ensures Key(BoardOf(p, n))
         == Pow2(n - p[0] - 1) * Pow2((n - 1) * n) + Key(BoardOf(p, n)[1..])
    ensures Key(BoardOf(p, n)[1..]) < Pow2((n - 1) * n)
  {
    var b := BoardOf(p, n);
    var lower := Flatten(b[1..]);
    LowerRanksLength(p, n);
    assert Flatten(b) == b[0] + lower;
    ValueOfAppend(b[0], lower);
    QueenRankValue(p[0], n);
    ValueBound(lower);
  }

  /** A smaller leading digit in base w gives the smaller number, whatever
      the lower digits: u = x * w + lo is below v = y * w + hi. */
  lemma LeadingDigitOrder(x: nat, y: nat, w: nat, lo: nat, hi: nat, u: nat, v: nat)
    requires x < y && lo < w
    requires u == x * w + lo && v == y * w + hi
    ensures u < v
  {
    MulAtLeast(y - x, w);
    assert y * w == x * w + (y - x) * w;
  }

  /** A number whose leading place is 2^e, over m lower binary places, is
      below one whose leading place is 2^f for any f above e. */
  lemma OrderFromLeading(e: nat, f: nat, m: nat, lo: nat, hi: nat, u: nat, v: nat)
    requires e < f && lo < Pow2(m)
    requires u == Pow2(e) * Pow2(m) + lo && v == Pow2(f) * Pow2(m) + hi
    ensures u < v
  {
    Pow2Increasing(e, f);
    LeadingDigitOrder(Pow2(e), Pow2(f), Pow2(m), lo, hi, u, v);
  }

  lemma {:induction false} MulAtLeast(d: nat, w: nat)
    requires d >= 1
    ensures d * w >= w
    decreases d
  {
    if d > 1 {
      MulAtLeast(d - 1, w);
      assert d * w == (d - 1) * w + w;
    }
  }

  /** Of two solutions, the one whose first-rank queen stands further right
      has a board that spells the smaller number, so it is generated
      first. */
  lemma FirstRankOrder(p: seq<int>, q: seq<int>, n: nat)
    requires n >= 1 && IsSolution(p, n) && IsSolution(q, n)
    requires p[0] > q[0]
    ensures Key(BoardOf(p, n)) < Key(BoardOf(q, n))
  {
    FirstRankValue(p, n);
    FirstRankValue(q, n);
    OrderFromLeading(n - p[0] - 1, n - q[0] - 1, (n - 1) * n,
      Key(BoardOf(p, n)[1..]), Key(BoardOf(q, n)[1..]), Key(BoardOf(p, n)), Key(BoardOf(q, n)));
  }
}
