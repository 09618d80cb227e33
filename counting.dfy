/** How many numbers of a range have a given number of one bits: below 2^m
    there are exactly C(m, k) numbers with k ones. */
module Counting {
  import opened BinaryStrings

  /** Binomial coefficient by Pascal's rule. */
  function Choose(m: nat, k: nat): nat {
    if k == 0 then 1
    else if m == 0 then 0
    else Choose(m - 1, k - 1) + Choose(m - 1, k)
  }

  /** The number of i with lo <= i < lo + len and Ones(i) == k. */
  function CountWithOnes(lo: nat, len: nat, k: nat): (r: nat)
    ensures r <= len
  {
    if len == 0 then 0
    else CountWithOnes(lo, len - 1, k) + (if Ones(lo + len - 1) == k then 1 else 0)
  }

  /** Setting a bit above all the bits of x adds one to its one bits. */
  lemma {:induction false} OnesTopBit(m: nat, x: nat)
    requires x < Pow2(m)
    ensures Ones(Pow2(m) + x) == Ones(x) + 1
    decreases m
  {
    if m > 0 {
      var h, q, b := Pow2(m - 1), x / 2, x % 2;
      assert Pow2(m) == 2 * h;
      assert x == 2 * q + b;
      var y := Pow2(m) + x;
      HalfOf(y, h + q, b);
      assert Ones(y) == b + Ones(h + q);
      assert Ones(x) == b + Ones(q);
      OnesTopBit(m - 1, q);
    } else {
      assert x == 0;
      assert Ones(1) == 1 + Ones(0);
    }
  }

  /** Counting over a range split in two adds the two counts. */
  lemma {:induction false} CountSplit(lo: nat, a: nat, b: nat, k: nat)
    ensures CountWithOnes(lo, a + b, k) == CountWithOnes(lo, a, k) + CountWithOnes(lo + a, b, k)
    decreases b
  {
    if b > 0 {
      CountSplit(lo, a, b - 1, k);
    }
  }

  /** Numbers with the top bit m set: each has one more one than its low part. */
  lemma {:induction false} CountTopHalf(m: nat, len: nat, k: nat)
    requires len <= Pow2(m)
    ensures CountWithOnes(Pow2(m), len, k) == if k == 0 then 0 else CountWithOnes(0, len, k - 1)
    decreases len
  {
    if len > 0 {
      CountTopHalf(m, len - 1, k);
      OnesTopBit(m, len - 1);
    }
  }

  /** Below 2^m, exactly C(m, k) numbers have k one bits. */
  lemma {:induction false} CountBelowPow2(m: nat, k: nat)
    ensures CountWithOnes(0, Pow2(m), k) == Choose(m, k)
    decreases m
  {
    if m > 0 {
      var h := Pow2(m - 1);
      assert Pow2(m) == h + h;
      CountSplit(0, h, h, k);
      CountTopHalf(m - 1, h, k);
      CountBelowPow2(m - 1, k);
      if k > 0 {
        CountBelowPow2(m - 1, k - 1);
      }
    }
  }

  /** For k >= 2, the numbers 1 .. 2^m (both ends included) with k one bits
      are the same C(m, k) numbers: zero and 2^m each have fewer ones. */
  lemma CountOneToPow2(m: nat, k: nat)
    requires k >= 2
    ensures CountWithOnes(1, Pow2(m), k) == Choose(m, k)
  {
    CountBelowPow2(m, k);
    CountSplit(0, 1, Pow2(m), k);
    CountSplit(0, Pow2(m), 1, k);
    OnesTopBit(m, 0);
  }

  lemma {:induction false} ChooseOne(m: nat)
    ensures Choose(m, 1) == m
  {
    if m > 0 {
      ChooseOne(m - 1);
    }
  }

  lemma {:induction false} ChooseTwo(m: nat)
    ensures 2 * Choose(m, 2) == m * (m - 1)
  {
    if m > 0 {
      ChooseOne(m - 1);
      ChooseTwo(m - 1);
    }
  }

  lemma {:induction false} ChooseThree(m: nat)
    ensures 6 * Choose(m, 3) == m * (m - 1) * (m - 2)
  {
    if m > 0 {
      ChooseTwo(m - 1);
      ChooseThree(m - 1);
    }
  }

  lemma {:induction false} ChooseFour(m: nat)
    ensures 24 * Choose(m, 4) == m * (m - 1) * (m - 2) * (m - 3)
  {
    if m > 0 {
      ChooseThree(m - 1);
      ChooseFour(m - 1);
    }
  }

  /** 16 * 15 * 14 * 13 = 43680. */
  lemma SixteenFallingFour(m: int)
    requires m == 16
    ensures m * (m - 1) * (m - 2) * (m - 3) == 43680
  {
  }

  /** C(16, 4) = 1820, from the closed form of ChooseFour. The row is a
      parameter fixed at 16, which keeps Pascal's rule from being unrolled. */
  lemma ChooseFourOfSixteen(m: nat)
    requires m == 16
    ensures Choose(m, 4) == 1820
  {
    ChooseFour(m);
    SixteenFallingFour(m);
  }
}
