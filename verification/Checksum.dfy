/**
 The Internet checksum and the packet check of tools/tunslip.c: one's-complement sums as in
 section 2 of RFC 1071.
 */
module Checksum {
  import opened Bytes

  // ------------------------------------------------------------------ the sum

  /** `sum += t; if (sum < t) sum++` on 16-bit unsigned values. */
  function Add1c(sum: u16, t: u16): (r: u16)
    ensures r == if sum + t < 0x1_0000 then sum + t else sum + t - 0xffff
  {
    var x := (sum + t) % 0x1_0000;
    if x < t then x + 1 else x
  }

  function Word(hi: u8, lo: u8): u16 {
    0x100 * (hi as int) + lo as int
  }

  /** The sum of the big-endian words, an odd last byte being padded with zero. */
  function WordSum(b: bytes): nat {
    if b == [] then 0
    else if |b| == 1 then Word(b[0], 0)
    else Word(b[0], b[1]) + WordSum(b[2..])
  }

  function Ip4Sum(sum: u16, b: bytes): u16
    decreases |b|
  {
    if b == [] then sum
    else if |b| == 1 then Add1c(sum, Word(b[0], 0))
    else Ip4Sum(Add1c(sum, Word(b[0], b[1])), b[2..])
  }

  /** n reduced modulo 0xffff into 0..0xffff; only 0 itself gives 0. */
  function Norm(n: nat): (r: u16)
    ensures r == 0 <==> n == 0
  {
    if n <= 0xffff then n else Norm(n - 0xffff)
  }

  lemma {:induction false} NormCongruent(n: nat) returns (q: nat)
    ensures n == Norm(n) + 0xffff * q
  {
    if n <= 0xffff {
      q := 0;
    } else {
      var p := NormCongruent(n - 0xffff);
      q := p + 1;
    }
  }

  lemma {:induction false} NormOfNorm(a: nat, b: nat)
    ensures Norm(Norm(a) + b) == Norm(a + b)
  {
    if a > 0xffff {
      NormOfNorm(a - 0xffff, b);
    }
  }

  lemma NormAdd(a: u16, b: nat, t: u16)
    ensures Norm(Add1c(a, t) + b) == Norm(a + t + b)
  {
  }

  /** The meaning of ip4sum. */
  lemma {:induction false} SumMeaning(sum: u16, b: bytes)
    ensures Ip4Sum(sum, b) == Norm(sum + WordSum(b))
    decreases |b|
  {
    if |b| == 1 {
      NormAdd(sum, 0, Word(b[0], 0));
    } else if |b| > 1 {
      var t := Word(b[0], b[1]);
      SumMeaning(Add1c(sum, t), b[2..]);
      NormAdd(sum, WordSum(b[2..]), t);
    }
  }

  /** ip4sum is congruent to the plain sum, and is 0 only when everything summed is 0. */
  lemma SumCongruent(sum: u16, b: bytes)
    ensures exists q: nat :: sum + WordSum(b) == Ip4Sum(sum, b) + 0xffff * q
    ensures Ip4Sum(sum, b) == 0 <==> sum == 0 && forall i :: 0 <= i < |b| ==> b[i] == 0
  {
    SumMeaning(sum, b);
    var q := NormCongruent(sum + WordSum(b));
    ZeroSum(b);
  }

  lemma {:induction false} ZeroSum(b: bytes)
    ensures WordSum(b) == 0 <==> forall i :: 0 <= i < |b| ==> b[i] == 0
    decreases |b|
  {
    if |b| > 1 {
      ZeroSum(b[2..]);
      assert forall i :: 0 <= i < |b| - 2 ==> b[2..][i] == b[i + 2];
      if WordSum(b) == 0 {
        assert b[0] == 0 && b[1] == 0;
        forall i | 0 <= i < |b|
          ensures b[i] == 0
        {
          if i >= 2 { assert b[2..][i - 2] == 0; }
        }
      }
    }
  }

  lemma {:induction false} WordSumAppend(a: bytes, b: bytes)
    requires |a| % 2 == 0
    ensures WordSum(a + b) == WordSum(a) + WordSum(b)
    decreases |a|
  {
    if a == [] {
      assert a + b == b;
    } else {
      assert (a + b)[2..] == a[2..] + b;
      WordSumAppend(a[2..], b);
    }
  }

  /** Sums compose at even offsets. */
  lemma {:induction false} SumComposes(sum: u16, a: bytes, b: bytes)
    requires |a| % 2 == 0
    ensures Ip4Sum(Ip4Sum(sum, a), b) == Ip4Sum(sum, a + b)
    decreases |a|
  {
    if a == [] {
      assert a + b == b;
    } else {
      assert (a + b)[2..] == a[2..] + b;
      SumComposes(Add1c(sum, Word(a[0], a[1])), a[2..], b);
    }
  }

  /** Zero in one's complement: the two sums check_ip lets pass. */
  predicate Acceptable(sum: u16) {
    sum == 0xffff || sum == 0
  }

  lemma {:induction false} NormOf(r: nat, q: nat)
    requires 0 < r <= 0xffff
    ensures Norm(r + 0xffff * q) == r
    decreases q
  {
    if q > 0 {
      NormOf(r, q - 1);
    }
  }

  lemma {:induction false} NormZero(q: nat)
    ensures Acceptable(Norm(0xffff * q))
  {
    if q > 0 {
      NormOf(0xffff, q - 1);
    }
  }

  /** Adding a multiple of 0xffff does not change acceptability. */
  lemma ShiftedSum(a: nat, b: nat, q: int)
    requires b == a + 0xffff * q
    ensures Acceptable(Norm(a)) <==> Acceptable(Norm(b))
  {
    if q < 0 {
      ShiftedSum(b, a, -q);
    } else {
      var p := NormCongruent(a);
      if Norm(a) == 0 {
        NormZero(p + q);
      } else {
        NormOf(Norm(a), p + q);
      }
    }
  }

  /** Adding anything else between -0xffff and 0xffff does. */
  lemma ModShift(a: nat, b: nat)
    requires Acceptable(Norm(a)) && a != b && -0xffff <= b - a <= 0xffff
    ensures Acceptable(Norm(b)) <==> b - a == 0xffff || b - a == -0xffff
  {
    var q := NormCongruent(a);
    var k := if Norm(a) == 0 then q else q + 1;
    var d := b - a;
    assert a == 0xffff * k;
    if d == 0xffff {
      NormZero(k + 1);
    } else if d == -0xffff {
      NormZero(k - 1);
    } else if d > 0 {
      NormOf(d, k);
    } else {
      NormOf(0xffff + d, k - 1);
    }
  }

  /** ip4sum itself: the loop over the bytes from `at` on. */
  method SumLoop(sum: u16, p: array<u8>, at: nat, len: nat) returns (r: u16)
    requires at + len <= p.Length
    ensures r == Norm(sum + WordSum(p[at..at + len]))
    ensures r == Ip4Sum(sum, p[at..at + len])
  {
    r := sum;
    var i, end := at, at + len;
    ghost var all := p[at..end];
    while i < end - 1
      invariant at <= i <= end
      invariant Ip4Sum(r, p[i..end]) == Ip4Sum(sum, all)
    {
      var t := Word(p[i], p[i + 1]);
      assert p[i..end][2..] == p[i + 2..end];
      r := Add1c(r, t);
      i := i + 2;
    }
    if i < end {
      assert p[i..end] == [p[i]];
      r := Add1c(r, Word(p[i], 0));
    } else {
      assert p[i..end] == [];
    }
    SumMeaning(sum, all);
  }
}
