/** Rounding up to a power of two by smearing bits. */
module Smearing {
  import opened Bits

  function Two(k: nat): (p: nat)
    ensures p >= 1
  {
    if k == 0 then 1 else 2 * Two(k - 1)
  }

  /** Bitwise or, on numbers. */
  function Or(a: nat, b: nat): nat {
    if a == 0 then b else if b == 0 then a else
      (if a % 2 == 1 || b % 2 == 1 then 1 else 0) + 2 * Or(a / 2, b / 2)
  }

  function Shr(a: nat, k: nat): nat {
    if k == 0 then a else Shr(a / 2, k - 1)
  }

  predicate Bit(a: nat, i: nat) {
    if i == 0 then a % 2 == 1 else Bit(a / 2, i - 1)
  }

  function Length(a: nat): nat {
    if a == 0 then 0 else 1 + Length(a / 2)
  }

  lemma {:induction false} OrBit(a: nat, b: nat, i: nat)
    ensures Bit(Or(a, b), i) <==> Bit(a, i) || Bit(b, i)
    decreases i
  {
    if a == 0 || b == 0 {
      NoBits(i);
    } else {
      OrHalves(a, b);
      hide Or;
      if i > 0 {
        OrBit(a / 2, b / 2, i - 1);
      }
    }
  }

  lemma OrHalves(a: nat, b: nat)
    requires a > 0 && b > 0
    ensures Or(a, b) / 2 == Or(a / 2, b / 2) && (Or(a, b) % 2 == 1 <==> a % 2 == 1 || b % 2 == 1)
  {
  }

  lemma {:induction false} NoBits(i: nat)
    ensures !Bit(0, i)
  {
    if i > 0 {
      NoBits(i - 1);
    }
  }

  lemma {:induction false} ShrBit(a: nat, k: nat, i: nat)
    ensures Bit(Shr(a, k), i) <==> Bit(a, i + k)
    decreases k
  {
    if k > 0 {
      ShrBit(a / 2, k - 1, i);
    }
  }

  /** The longest number has its top bit, and none beyond. */
  lemma {:induction false} LengthBits(a: nat, i: nat)
    ensures i >= Length(a) ==> !Bit(a, i)
    ensures a > 0 && i == Length(a) - 1 ==> Bit(a, i)
    decreases i
  {
    assert a > 0 ==> (a / 2 > 0 <==> Length(a / 2) > 0);
    if i > 0 {
      LengthBits(a / 2, i - 1);
    }
    if a == 0 {
      NoBits(i);
    }
  }

  lemma {:induction false} LengthBounds(a: nat)
    ensures a < Two(Length(a)) && (a > 0 ==> Two(Length(a) - 1) <= a)
  {
    if a > 0 {
      LengthBounds(a / 2);
    }
  }

  lemma {:induction false} TwoGrows(a: nat, b: nat)
    requires a <= b
    ensures Two(a) <= Two(b) && (a < b ==> 2 * Two(a) <= Two(b))
    decreases b
  {
    if a < b {
      TwoGrows(a, b - 1);
    }
  }

  /** One of the `m` bits from `i` on. */
  ghost predicate SetIn(a: nat, i: nat, m: nat) {
    exists j: nat :: i <= j < i + m && Bit(a, j)
  }

  /** Every bit of `b` tells of the `m` bits of `a` from its place on. */
  ghost predicate Tells(a: nat, b: nat, m: nat) {
    forall i: nat :: Bit(b, i) <==> SetIn(a, i, m)
  }

  lemma Doubles(a: nat, b: nat, m: nat)
    requires Tells(a, b, m)
    ensures Tells(a, Or(b, Shr(b, m)), 2 * m)
  {
    hide Or, Shr, Bit;
    forall i: nat
      ensures Bit(Or(b, Shr(b, m)), i) <==> SetIn(a, i, 2 * m)
    {
      OrBit(b, Shr(b, m), i);
      ShrBit(b, m, i);
      assert Bit(b, i) <==> SetIn(a, i, m);
      assert Bit(b, i + m) <==> SetIn(a, i + m, m);
      if SetIn(a, i, 2 * m) {
        var j: nat :| i <= j < i + 2 * m && Bit(a, j);
        assert j < i + m ==> SetIn(a, i, m);
        assert j >= i + m ==> SetIn(a, i + m, m);
      }
    }
  }

  /** `n |= n >> 1` and so on, up to `n |= n >> 16`. */
  function Smear(n: nat): nat {
    var a := Or(n, Shr(n, 1));
    var b := Or(a, Shr(a, 2));
    var c := Or(b, Shr(b, 4));
    var d := Or(c, Shr(c, 8));
    Or(d, Shr(d, 16))
  }

  /** Every bit is smeared over the 31 below it. */
  lemma SmearTells(n: nat)
    ensures Tells(n, Smear(n), 32)
  {
    hide Or, Shr, Bit, Tells;
    var a := Or(n, Shr(n, 1));
    var b := Or(a, Shr(a, 2));
    var c := Or(b, Shr(b, 4));
    var d := Or(c, Shr(c, 8));
    TellsItself(n);
    Doubles(n, n, 1);
    Doubles(n, a, 2);
    Doubles(n, b, 4);
    Doubles(n, c, 8);
    Doubles(n, d, 16);
  }

  lemma TellsItself(n: nat)
    ensures Tells(n, n, 1)
  {
    hide Bit;
    forall i: nat
      ensures Bit(n, i) <==> SetIn(n, i, 1)
    {
    }
  }

  /** All bits below `len` and none from there on make one less than a power of two. */
  lemma {:induction false} AllOnes(s: nat, len: nat)
    requires forall i: nat :: Bit(s, i) <==> i < len
    ensures s == Two(len) - 1
    decreases len
  {
    assert Bit(s, 0) <==> 0 < len;
    if len == 0 {
      LengthBits(s, if s > 0 then Length(s) - 1 else 0);
    } else {
      forall i: nat
        ensures Bit(s / 2, i) <==> i < len - 1
      {
        assert Bit(s, i + 1) <==> i + 1 < len;
      }
      AllOnes(s / 2, len - 1);
    }
  }

  lemma {:induction false} OnesBits(len: nat, i: nat)
    ensures i < len ==> Bit(Two(len) - 1, i)
    decreases len
  {
    if len > 0 && i > 0 {
      assert (Two(len) - 1) / 2 == Two(len - 1) - 1;
      OnesBits(len - 1, i - 1);
    }
  }

  lemma {:induction false} PowersAreTwos(p: nat) returns (k: nat)
    requires IsPow2(p)
    ensures p == Two(k)
  {
    if p == 1 {
      k := 0;
    } else {
      k := PowersAreTwos(p / 2);
      k := k + 1;
    }
  }

  lemma {:induction false} TwosArePowers(k: nat)
    ensures IsPow2(Two(k))
  {
    if k > 0 {
      TwosArePowers(k - 1);
    }
  }

  /** Below its top bit, no 32 bits in a row are zero. */
  ghost predicate NoGap(a: nat) {
    forall i: nat {:trigger SetIn(a, i, 32)} :: i < Length(a) ==> SetIn(a, i, 32)
  }

  /** The smeared number is as long as the original. */
  lemma SmearedBits(a: nat, i: nat)
    ensures i >= Length(a) ==> !Bit(Smear(a), i)
    ensures a > 0 && i == Length(a) - 1 ==> Bit(Smear(a), i)
    ensures NoGap(a) && i < Length(a) ==> Bit(Smear(a), i)
  {
    hide Bit, Smear;
    SmearTells(a);
    assert Bit(Smear(a), i) <==> SetIn(a, i, 32);
    LengthBits(a, i);
    forall j: nat | i <= j < i + 32
      ensures i >= Length(a) ==> !Bit(a, j)
    {
      LengthBits(a, j);
    }
  }

  lemma SmearOnes(a: nat)
    ensures NoGap(a) <==> Smear(a) == Two(Length(a)) - 1
  {
    hide Bit, Smear;
    if NoGap(a) {
      forall i: nat
        ensures Bit(Smear(a), i) <==> i < Length(a)
      {
        SmearedBits(a, i);
      }
      AllOnes(Smear(a), Length(a));
    }
    if Smear(a) == Two(Length(a)) - 1 {
      SmearTells(a);
      forall i: nat | i < Length(a)
        ensures SetIn(a, i, 32)
      {
        OnesBits(Length(a), i);
      }
    }
  }

  lemma SmearLength(a: nat)
    ensures Length(Smear(a)) == Length(a)
  {
    hide Bit, Smear;
    var s := Smear(a);
    SmearedBits(a, if s > 0 then Length(s) - 1 else 0);
    LengthBits(s, if s > 0 then Length(s) - 1 else 0);
    if a > 0 {
      SmearedBits(a, Length(a) - 1);
      LengthBits(s, Length(a) - 1);
    }
  }

  const SIZE := Two(64)

  lemma TwoDoubles(k: nat)
    ensures Two(k + 1) == 2 * Two(k)
  {
  }

  lemma Halves()
    ensures SIZE == 2 * Two(63)
  {
    hide Two;
    TwoDoubles(63);
  }

  /** `next_pow2`, on 64 bits: one is taken off and added again modulo 2^64. */
  function NextPow2(n: nat): nat {
    (Smear((n + SIZE - 1) % SIZE) + 1) % SIZE
  }

  lemma ModOfSmall(n: nat)
    requires 1 <= n < SIZE
    ensures (n + SIZE - 1) % SIZE == n - 1
  {
    DivUnique(n + SIZE - 1, SIZE, 1, n - 1);
  }

  /** The power between one half of a power and the whole is the whole. */
  lemma PowerBetween(p: nat, len: nat)
    requires IsPow2(p) && len > 0 && Two(len - 1) < p <= Two(len)
    ensures p == Two(len)
  {
    var k := PowersAreTwos(p);
    if k < len {
      TwoGrows(k, len - 1);
    } else {
      TwoGrows(len, k);
    }
  }

  /** The number that is smeared. */
  function Less(n: nat): nat
    requires n < SIZE
  {
    if n == 0 then SIZE - 1 else n - 1
  }

  lemma NextPow2Is(n: nat)
    requires n < SIZE
    ensures Less(n) < SIZE && NextPow2(n) == (Smear(Less(n)) + 1) % SIZE
  {
    hide Smear, Two;
    if n == 0 {
      DivUnique(SIZE - 1, SIZE, 0, SIZE - 1);
    } else {
      ModOfSmall(n);
    }
  }

  /** The result is a power of two if and only if `n` is from 1 to 2^63 and the bits of `n - 1` leave no gap;
      then it is the least one that is not below `n`. */
  lemma NextPow2Rounds(n: nat)
    requires n < SIZE
    ensures IsPow2(NextPow2(n)) <==> 1 <= n <= Two(63) && NoGap(n - 1)
    ensures IsPow2(NextPow2(n)) ==> NextPow2(n) >= n && (NextPow2(n) == 1 || NextPow2(n) / 2 < n)
  {
    hide Smear, Two, Length, NextPow2, IsPow2, NoGap;
    NextPow2Is(n);
    var a := Less(n);
    SmearLength(a);
    LengthFits(a, 64);
    if Length(a) == 64 {
      LongNeverRounds(n, a, Smear(a));
    } else {
      ShortRounds(n, a, Smear(a));
    }
  }

  lemma ShortRounds(n: nat, a: nat, s: nat)
    requires n < SIZE && a == Less(n) && s == Smear(a) && Length(a) == Length(s) < 64
    ensures 1 <= n <= Two(63) && (s + 1) % SIZE == s + 1
    ensures IsPow2(s + 1) <==> NoGap(a)
    ensures IsPow2(s + 1) ==> s + 1 >= n && (s + 1 == 1 || (s + 1) / 2 < n)
  {
    hide Smear, Two, Length, NoGap, IsPow2;
    var len := Length(a);
    Halves();
    LengthBounds(s);
    LengthBounds(a);
    LengthFits(a, 64);
    LengthOfZero(a);
    LengthOfZero(s);
    TwoGrows(len, 63);
    DivUnique(s + 1, SIZE, 0, s + 1);
    SmearOnes(a);
    TwosArePowers(len);
    if len > 0 {
      var half := Two(len - 1);
      TwoDoubles(len - 1);
      if IsPow2(s + 1) {
        PowerBetween(s + 1, len);
        assert s + 1 == 2 * half && half <= a;
      }
    } else {
      assert s + 1 == 1;
    }
  }

  lemma LengthOfZero(a: nat)
    ensures Length(a) == 0 <==> a == 0
    ensures Two(0) == 1
  {
  }

  lemma LengthFits(a: nat, k: nat)
    requires a < Two(k)
    ensures Length(a) <= k && (Length(a) < k ==> a < Two(k - 1)) && (Length(a) == k && a > 0 ==> a >= Two(k - 1))
  {
    hide Two;
    LengthBounds(a);
    LengthOfZero(a);
    if Length(a) > k {
      TwoGrows(k, Length(a) - 1);
    } else if Length(a) < k {
      TwoGrows(Length(a), k - 1);
    }
  }

  /** From 2^63 + 1 on, and for 0, the result is never a power of two. */
  lemma LongNeverRounds(n: nat, a: nat, s: nat)
    requires n < SIZE && a == Less(n) && s == Smear(a) && Length(a) == Length(s) == 64
    ensures !(1 <= n <= Two(63)) && !IsPow2((s + 1) % SIZE)
  {
    hide Smear, Two, Length;
    LengthBounds(a);
    LengthBounds(s);
    LengthOfZero(a);
    LengthOfZero(s);
    Halves();
    if s + 1 == SIZE {
      DivUnique(SIZE, SIZE, 1, 0);
    } else {
      DivUnique(s + 1, SIZE, 0, s + 1);
      if IsPow2(s + 1) {
        PowerBetween(s + 1, 64);
      }
    }
  }

  /** Up to 2^32 there is no gap. */
  lemma SmallHaveNoGap(n: nat)
    requires 1 <= n <= Two(32)
    ensures NoGap(n - 1) && n <= Two(63) < SIZE
  {
    hide Bit, Two, Length;
    var a := n - 1;
    LengthFits(a, 32);
    LengthOfZero(a);
    TwoGrows(32, 63);
    Halves();
    forall i: nat | i < Length(a)
      ensures SetIn(a, i, 32)
    {
      LengthBits(a, Length(a) - 1);
    }
  }

  /** Up to 2^32 it rounds up as it should. */
  lemma SmallRounds(n: nat)
    requires 1 <= n <= Two(32)
    ensures n < SIZE && IsPow2(NextPow2(n))
  {
    hide NextPow2, IsPow2, NoGap, Two;
    SmallHaveNoGap(n);
    NextPow2Rounds(n);
  }

  lemma {:induction false} OnlyTopBit(k: nat, i: nat)
    ensures Bit(Two(k), i) <==> i == k
    ensures Length(Two(k)) == k + 1
    decreases k
  {
    if k > 0 {
      OnlyTopBit(k - 1, if i > 0 then i - 1 else 0);
    } else if i > 0 {
      NoBits(i - 1);
    }
  }

  /** The first number it fails on is 2^32 + 1. */
  lemma FirstGap()
    ensures !IsPow2(NextPow2(Two(32) + 1))
  {
    hide Bit, Smear, NextPow2, Two, Length;
    var a := Two(32);
    OnlyTopBit(32, 0);
    forall j: nat | 0 <= j < 32
      ensures !Bit(a, j)
    {
      OnlyTopBit(32, j);
    }
    assert !SetIn(a, 0, 32);
    assert !NoGap(a);
    TwoGrows(33, 63);
    TwoDoubles(32);
    Halves();
    NextPow2Rounds(a + 1);
  }
}
