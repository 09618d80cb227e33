/** Strings of '0' and '1' characters and the few library calls the brute-force
    pipeline makes on them: counting ones, Integer.toBinaryString, left padding
    with zeros, cutting into fixed-width pieces and String.indexOf. */
module BinaryStrings {

  /** 2 to the power k. */
  function Pow2(k: nat): (r: nat)
    ensures r >= 1
  {
    if k == 0 then 1 else 2 * Pow2(k - 1)
  }

  /** The number of '1' characters in s (the character stream filter-and-count). */
  function PopCount(s: string): (r: nat)
    ensures r <= |s|
    ensures r == 0 <==> forall k :: 0 <= k < |s| ==> s[k] != '1'
  {
    if s == [] then 0
    else PopCount(s[..|s| - 1]) + (if s[|s| - 1] == '1' then 1 else 0)
  }

  lemma {:induction false} PopCountAppend(a: string, b: string)
    ensures PopCount(a + b) == PopCount(a) + PopCount(b)
    decreases |b|
  {
    if b == [] {
      assert a + b == a;
    } else {
      var c := b[..|b| - 1];
      assert (a + b)[..|a + b| - 1] == a + c;
      PopCountAppend(a, c);
    }
  }

  /** String.indexOf: the first position of c in s, or -1 when s has no c. */
  function IndexOf(s: string, c: char): (r: int)
    ensures -1 <= r < |s|
    ensures r == -1 <==> c !in s
    ensures r >= 0 ==> s[r] == c && c !in s[..r]
  {
    if s == [] then -1
    else if s[0] == c then 0
    else
      var t := IndexOf(s[1..], c);
      assert s == [s[0]] + s[1..];
      if t == -1 then -1
      else
        assert s[..t + 1] == [s[0]] + s[1..][..t];
        t + 1
  }

  function Digit(b: nat): char
    requires b < 2
  {
    if b == 0 then '0' else '1'
  }

  predicate IsBits(s: string) {
    forall k :: 0 <= k < |s| ==> s[k] == '0' || s[k] == '1'
  }

  /** Integer.toBinaryString of a non-negative value: the shortest binary
      numeral, which starts with '1' except for zero itself ("0"). */
  function Binary(i: nat): (r: string)
    ensures |r| >= 1 && IsBits(r)
    ensures r[0] == '1' <==> i >= 1
    decreases i
  {
    if i < 2 then [Digit(i)] else Binary(i / 2) + [Digit(i % 2)]
  }

  /** The value of a binary numeral (most significant digit first). */
  function ValueOf(s: string): nat {
    if s == [] then 0
    else 2 * ValueOf(s[..|s| - 1]) + (if s[|s| - 1] == '1' then 1 else 0)
  }

  /** The number of one bits of i, computed on the number itself. */
  function Ones(i: nat): nat {
    if i == 0 then 0 else i % 2 + Ones(i / 2)
  }

  /** Reading back the numeral Binary writes gives the number. */
  lemma {:induction false} BinaryRoundTrip(i: nat)
    ensures ValueOf(Binary(i)) == i
    decreases i
  {
    if i >= 2 {
      var s := Binary(i);
      assert s[..|s| - 1] == Binary(i / 2);
      BinaryRoundTrip(i / 2);
    }
  }

  /** Counting the '1' characters of the numeral counts the one bits. */
  lemma {:induction false} PopCountBinary(i: nat)
    ensures PopCount(Binary(i)) == Ones(i)
    decreases i
  {
    if i >= 2 {
      var s := Binary(i);
      assert s[..|s| - 1] == Binary(i / 2);
      PopCountBinary(i / 2);
    }
  }

  /** A positive number below 2^k has a numeral of at most k digits. */
  lemma {:induction false} BinaryLength(i: nat, k: nat)
    requires 1 <= i < Pow2(k)
    ensures |Binary(i)| <= k
    decreases i
  {
    if i >= 2 {
      BinaryLength(i / 2, k - 1);
    }
  }

  /** k copies of '0'. */
  function Zeros(k: nat): string {
    seq(k, _ => '0')
  }

  /** Right-justifies s in a field of width w, filling with '0' on the left
      (formatting with "%ws" and then turning the padding spaces into '0').
      A string already at least w long is returned unchanged. */
  function PadLeft(s: string, w: nat): string {
    if |s| >= w then s else Zeros(w - |s|) + s
  }

  /** Padding keeps the digits, reaches the width and only adds zeros. */
  lemma PadLeftShape(s: string, w: nat)
    ensures |PadLeft(s, w)| == if |s| >= w then |s| else w
    ensures PadLeft(s, w)[|PadLeft(s, w)| - |s|..] == s
    ensures forall j :: 0 <= j < |PadLeft(s, w)| - |s| ==> PadLeft(s, w)[j] == '0'
  {
  }

  /** Leading zeros change neither the value nor the number of ones. */
  lemma {:induction false} ZerosPrefix(k: nat, s: string)
    ensures ValueOf(Zeros(k) + s) == ValueOf(s)
    ensures PopCount(Zeros(k) + s) == PopCount(s)
    decreases |s|
  {
    if s == [] {
      assert Zeros(k) + s == Zeros(k);
      ZerosValue(k);
    } else {
      var t := s[..|s| - 1];
      assert (Zeros(k) + s)[..|Zeros(k) + s| - 1] == Zeros(k) + t;
      ZerosPrefix(k, t);
    }
  }

  lemma {:induction false} ZerosValue(k: nat)
    ensures ValueOf(Zeros(k)) == 0 && PopCount(Zeros(k)) == 0
    decreases k
  {
    if k > 0 {
      assert Zeros(k)[..k - 1] == Zeros(k - 1);
      ZerosValue(k - 1);
    }
  }

  /** Powers of two grow with the exponent. */
  lemma {:induction false} Pow2Increasing(a: nat, b: nat)
    requires a < b
    ensures Pow2(a) < Pow2(b)
    decreases b
  {
    if a < b - 1 {
      Pow2Increasing(a, b - 1);
    }
  }

  /** The digits of b written after those of a: a's value moves up by |b|
      places. */
  lemma {:induction false} ValueOfAppend(a: string, b: string)
    ensures ValueOf(a + b) == ValueOf(a) * Pow2(|b|) + ValueOf(b)
    decreases |b|
  {
    if b == [] {
      assert a + b == a;
    } else {
      var t := b[..|b| - 1];
      assert (a + b)[..|a + b| - 1] == a + t;
      ValueOfAppend(a, t);
      DoubleProduct(ValueOf(a), Pow2(|t|));
    }
  }

  lemma DoubleProduct(v: nat, w: nat)
    ensures v * (2 * w) == 2 * (v * w)
  {
  }

  /** Padding does not change what the numeral stands for. */
  lemma PadLeftValue(s: string, w: nat)
    ensures ValueOf(PadLeft(s, w)) == ValueOf(s)
    ensures PopCount(PadLeft(s, w)) == PopCount(s)
  {
    if |s| < w {
      ZerosPrefix(w - |s|, s);
    }
  }

  /** The concatenation of a sequence of strings. */
  function Flatten(parts: seq<string>): string {
    if parts == [] then [] else parts[0] + Flatten(parts[1..])
  }

  /** Cuts s into consecutive pieces of k characters, the last one possibly
      shorter (splitting on a zero-width match after every k characters).
      The pieces put back together give s. */
  function Chunk(s: string, k: nat): (r: seq<string>)
    requires k >= 1
    ensures |r| >= 1 && Flatten(r) == s
    ensures forall j :: 0 <= j < |r| ==> |r[j]| <= k
    ensures s != [] ==> forall j :: 0 <= j < |r| ==> |r[j]| >= 1
    decreases |s|
  {
    if |s| <= k then [s] else [s[..k]] + Chunk(s[k..], k)
  }

  /** A string of m * k characters is cut into exactly m pieces of k. */
  lemma {:induction false} ChunkExact(s: string, k: nat, m: nat)
    requires k >= 1 && m >= 1 && |s| == m * k
    ensures |Chunk(s, k)| == m
    ensures forall j :: 0 <= j < m ==> |Chunk(s, k)[j]| == k
    decreases m
  {
    if m > 1 {
      var rest := s[k..];
      assert |rest| == (m - 1) * k by {
        assert m * k == (m - 1) * k + k;
      }
      ChunkExact(rest, k, m - 1);
      assert Chunk(s, k) == [s[..k]] + Chunk(rest, k);
    } else {
      assert |s| == k;
    }
  }

  /** A numeral of d digits stands for a number below 2^d. */
  lemma {:induction false} ValueBound(s: string)
    ensures ValueOf(s) < Pow2(|s|)
    decreases |s|
  {
    if s != [] {
      ValueBound(s[..|s| - 1]);
    }
  }

  /** A string of digits whose value is zero is all zeros. */
  lemma {:induction false} ZeroValueIsZeros(s: string)
    requires IsBits(s) && ValueOf(s) == 0
    ensures s == Zeros(|s|)
    decreases |s|
  {
    if s != [] {
      var t := s[..|s| - 1];
      ZeroValueIsZeros(t);
      assert s == t + [s[|s| - 1]];
    }
  }

  /** The converse of padding the numeral of a number: a string of digits with
      a nonzero value is the numeral of that value padded to its own length. */
  lemma {:induction false} NumeralOfValue(s: string)
    requires IsBits(s) && ValueOf(s) >= 1
    ensures PadLeft(Binary(ValueOf(s)), |s|) == s
    decreases |s|
  {
    var t, d := s[..|s| - 1], s[|s| - 1];
    assert s == t + [d];
    assert IsBits(t) by {
      forall k | 0 <= k < |t|
        ensures t[k] == '0' || t[k] == '1'
      {
        assert t[k] == s[k];
      }
    }
    var v := ValueOf(t);
    var b := if d == '1' then 1 else 0;
    assert Digit(b) == d;
    if v == 0 {
      ZeroValueIsZeros(t);
      assert ValueOf(s) == 1;
      assert Binary(1) == [d];
    } else {
      NumeralOfValue(t);
      var y := ValueOf(s);
      assert y == 2 * v + b;
      HalfOf(y, v, b);
      assert Binary(y) == Binary(v) + [d];
      var u := Binary(v);
      assert |u| <= |t|;
      assert Zeros(|t| - |u|) + u == t;
      assert (Zeros(|t| - |u|) + u) + [d] == Zeros(|s| - |Binary(y)|) + Binary(y);
    }
  }

  /** y = 2q + b with b a bit: halving gives q back and b as remainder. */
  lemma HalfOf(y: nat, q: nat, b: nat)
    requires b < 2 && y == 2 * q + b
    ensures y / 2 == q && y % 2 == b
  {
  }

  /** Concatenating digit strings gives a digit string. */
  lemma {:induction false} FlattenBits(parts: seq<string>)
    requires forall k :: 0 <= k < |parts| ==> IsBits(parts[k])
    ensures IsBits(Flatten(parts))
    decreases |parts|
  {
    if parts != [] {
      FlattenBits(parts[1..]);
    }
  }

  /** m pieces of k characters put together have m * k characters. */
  lemma {:induction false} FlattenLength(parts: seq<string>, k: nat)
    requires forall j :: 0 <= j < |parts| ==> |parts[j]| == k
    ensures |Flatten(parts)| == |parts| * k
    decreases |parts|
  {
    if parts != [] {
      FlattenLength(parts[1..], k);
    }
  }

  /** Cutting pieces of k characters, put together, gives back the pieces. */
  lemma {:induction false} ChunkFlatten(parts: seq<string>, k: nat)
    requires k >= 1 && |parts| >= 1
    requires forall j :: 0 <= j < |parts| ==> |parts[j]| == k
    ensures Chunk(Flatten(parts), k) == parts
    decreases |parts|
  {
    var s := Flatten(parts);
    if |parts| > 1 {
      var rest := parts[1..];
      FlattenLength(rest, k);
      assert s == parts[0] + Flatten(rest);
      assert s[..k] == parts[0] && s[k..] == Flatten(rest);
      ChunkFlatten(rest, k);
      assert parts == [parts[0]] + rest;
    } else {
      assert parts[1..] == [];
      assert s == parts[0];
      assert parts == [parts[0]];
    }
  }
}
